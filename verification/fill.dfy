/**
 The second phase of a generation run: the loop over the whole table
 `foreach (var pair in _map)` that fills the generated declaration each
 entry holds for the run, with the run's shape on top of the stack.

 The table belongs to the generator, not to the run, so the loop also
 visits the entries earlier runs left behind. Such an entry may lack the
 form this run fills (a C# null); filling it then fails with a null
 dereference as soon as the fill would touch the target, which is modelled
 as `NullTarget`.
 */
module Fill {
  import opened Model
  import opened Mapping
  import opened Generator

  /** The form a run of `kind` fills: `pair.Value.Interface` in an interface
      run, `pair.Value.Class` in a class run. */
  function RunForm(kind: DeclKind, item: MapItem): Option<DeclId>
  {
    if kind == InterfaceKind then item.interfaceForm else item.classForm
  }

  /** A form is null or one of the `n` generated declarations. */
  predicate FormWithin(form: Option<DeclId>, n: nat)
  {
    form.Some? ==> form.value.Generated? && form.value.index < n
  }

  /** Every entry's key is a source declaration and every form it holds is a
      generated declaration. */
  predicate EntriesWithin(store: map<DeclId, Declaration>, entries: seq<MapEntry>, n: nat)
  {
    forall e :: e in entries ==>
      e.key in store && FormWithin(e.item.classForm, n) && FormWithin(e.item.interfaceForm, n)
  }

  /** The generated declaration an entry's run form points to. */
  function SlotOf(kind: DeclKind, e: MapEntry): Option<nat>
  {
    match RunForm(kind, e.item)
    case Some(Generated(_, i)) => Some(i)
    case _ => None
  }

  /** Some entry fills generated declaration `i`. */
  predicate Targeted(kind: DeclKind, entries: seq<MapEntry>, i: nat)
  {
    exists j :: 0 <= j < |entries| && SlotOf(kind, entries[j]) == Some(i)
  }

  /** No two entries fill the same generated declaration. */
  predicate DistinctSlots(kind: DeclKind, entries: seq<MapEntry>)
  {
    forall i, j :: 0 <= i < j < |entries| && SlotOf(kind, entries[i]).Some? ==> SlotOf(kind, entries[i]) != SlotOf(kind, entries[j])
  }

  /** The state the loop leaves: the generated declarations, the exception
      that ended it, and the shape stack. */
  datatype Filled = Filled(generated: seq<Declaration>, error: Option<GenError>, stack: seq<bool>)

  // ---------------------------------------------------------------------
  // Interface runs

  /** Whether `GenerateObservableInterface` touches its target: it adds an
      extended type for every `GetExtends()` element and, for a class, every
      implemented interface, then copies generic parameters and properties. */
  predicate InterfaceTouchesTarget(id: DeclId, d: Declaration)
  {
    || |d.declaredExtends| > 0
    || (id.kind == ClassKind && |d.implementations| > 0)
    || |d.genericParameters| > 0
    || Properties(d.members) != []
  }

  /** An entry an interface run cannot fill: no interface form, and a
      source whose generation touches the target. */
  predicate InterfaceFails(store: map<DeclId, Declaration>, e: MapEntry)
    requires e.key in store
  {
    e.item.interfaceForm.None? && InterfaceTouchesTarget(e.key, store[e.key])
  }

  /** One iteration of the interface run's loop. */
  function InterfaceEntry(store: map<DeclId, Declaration>, table: MapTable, e: MapEntry, generated: seq<Declaration>, stack: seq<bool>)
    : (r: Filled)
    requires |stack| > 0
    requires e.key in store && FormWithin(e.item.interfaceForm, |generated|)
    ensures r.stack == stack
    ensures |r.generated| == |generated|
    ensures forall i :: 0 <= i < |generated| ==>
      r.generated[i].name == generated[i].name && r.generated[i].baseClass == generated[i].baseClass
    ensures forall i :: 0 <= i < |generated| && SlotOf(InterfaceKind, e) != Some(i) ==> r.generated[i] == generated[i]
    ensures r.error.Some? <==> InterfaceFails(store, e)
    ensures r.error.Some? ==> r.error == Some(NullTarget(e.key))
    ensures Top(stack) ==> forall i :: 0 <= i < |generated| && ContractOnly(generated[i]) ==> ContractOnly(r.generated[i])
  {
    match e.item.interfaceForm
    case None =>
      if InterfaceTouchesTarget(e.key, store[e.key]) then Filled(generated, Some(NullTarget(e.key)), stack)
      else Filled(generated, None, stack)
    case Some(id) =>
      var d := GenerateObservableInterface(e.key, store[e.key], generated[id.index], table, Top(stack));
      Filled(generated[id.index := d], None, stack)
  }

  /** The interface run's loop over `entries`, stopping at the first
      exception. */
  function FillInterfaces(store: map<DeclId, Declaration>, table: MapTable, entries: seq<MapEntry>, generated: seq<Declaration>, stack: seq<bool>)
    : (r: Filled)
    requires |stack| > 0
    requires EntriesWithin(store, entries, |generated|)
    ensures r.stack == stack
    ensures |r.generated| == |generated|
    ensures forall i :: 0 <= i < |generated| ==>
      r.generated[i].name == generated[i].name && r.generated[i].baseClass == generated[i].baseClass
    ensures forall i :: 0 <= i < |generated| && !Targeted(InterfaceKind, entries, i) ==> r.generated[i] == generated[i]
    ensures r.error.Some? <==> exists j :: 0 <= j < |entries| && InterfaceFails(store, entries[j])
    ensures r.error.Some? ==> r.error.value.NullTarget?
    ensures Top(stack) ==> forall i :: 0 <= i < |generated| && ContractOnly(generated[i]) ==> ContractOnly(r.generated[i])
  {
    if |entries| == 0 then Filled(generated, None, stack)
    else
      var first := InterfaceEntry(store, table, entries[0], generated, stack);
      assert forall j :: 1 <= j < |entries| ==> entries[j] == entries[1..][j - 1];
      if first.error.Some? then first
      else
        assert EntriesWithin(store, entries[1..], |first.generated|);
        FillInterfaces(store, table, entries[1..], first.generated, stack)
  }

  /** The interface run's second phase: interface shape pushed, the loop
      over the whole table, and the pop of the `finally` block. */
  function InterfacePhase(store: map<DeclId, Declaration>, table: MapTable, generated: seq<Declaration>, stack: seq<bool>)
    : (r: Filled)
    requires ValidTable(table) && EntriesWithin(store, Entries(table), |generated|)
    ensures r.stack == stack
    ensures |r.generated| == |generated|
    ensures forall i :: 0 <= i < |generated| ==>
      r.generated[i].name == generated[i].name && r.generated[i].baseClass == generated[i].baseClass
    ensures forall i :: 0 <= i < |generated| && !Targeted(InterfaceKind, Entries(table), i) ==> r.generated[i] == generated[i]
    ensures r.error.Some? <==> exists j :: 0 <= j < |Entries(table)| && InterfaceFails(store, Entries(table)[j])
    ensures r.error.Some? ==> r.error.value.NullTarget?
    ensures forall i :: 0 <= i < |generated| && ContractOnly(generated[i]) ==> ContractOnly(r.generated[i])
  {
    var inner := Push(stack, true);
    var f := FillInterfaces(store, table, Entries(table), generated, inner);
    assert Pop(f.stack) == stack;
    Filled(f.generated, f.error, Pop(f.stack))
  }

  /** The interface phase is its loop under interface shape. */
  lemma InterfacePhaseLoop(store: map<DeclId, Declaration>, table: MapTable, generated: seq<Declaration>, stack: seq<bool>)
    requires ValidTable(table) && EntriesWithin(store, Entries(table), |generated|)
    ensures var f := FillInterfaces(store, table, Entries(table), generated, Push(stack, true));
      InterfacePhase(store, table, generated, stack) == Filled(f.generated, f.error, stack)
  {
  }

  /** When no two entries share a generated declaration and the loop runs
      to the end, each entry's generated interface is
      `GenerateObservableInterface` applied once to what it held before. */
  lemma {:induction false} FillInterfacesSlots(store: map<DeclId, Declaration>, table: MapTable, entries: seq<MapEntry>,
                                               generated: seq<Declaration>, stack: seq<bool>, j: nat)
    requires |stack| > 0
    requires EntriesWithin(store, entries, |generated|)
    requires DistinctSlots(InterfaceKind, entries)
    requires j < |entries| && SlotOf(InterfaceKind, entries[j]).Some?
    requires FillInterfaces(store, table, entries, generated, stack).error.None?
    ensures var s := SlotOf(InterfaceKind, entries[j]).value;
      s < |generated| &&
      FillInterfaces(store, table, entries, generated, stack).generated[s] ==
        GenerateObservableInterface(entries[j].key, store[entries[j].key], generated[s], table, Top(stack))
  {
    assert entries[j] in entries;
    var first := InterfaceEntry(store, table, entries[0], generated, stack);
    assert forall k :: 1 <= k < |entries| ==> entries[k] == entries[1..][k - 1];
    assert EntriesWithin(store, entries[1..], |first.generated|);
    var s := SlotOf(InterfaceKind, entries[j]).value;
    if j == 0 {
      forall k | 0 <= k < |entries[1..]|
        ensures SlotOf(InterfaceKind, entries[1..][k]) != Some(s)
      {
        assert entries[1..][k] == entries[k + 1];
      }
      assert !Targeted(InterfaceKind, entries[1..], s);
    } else {
      FillInterfacesSlots(store, table, entries[1..], first.generated, stack, j - 1);
      assert SlotOf(InterfaceKind, entries[0]) != SlotOf(InterfaceKind, entries[j]);
    }
  }

  // ---------------------------------------------------------------------
  // Class runs

  /** A declaration a class run rejects whatever the table holds: neither a
      class nor an interface, or an interface whose extended types `Any`
      rejects (a class reached, or a null entry before any class). */
  predicate Rejected(store: map<DeclId, Declaration>, id: DeclId)
    requires id in store
  {
    id.kind == OtherKind || (id.kind == InterfaceKind && BadExtends(store[id]))
  }

  /** Whether filling a class from source `d` touches the target: it adds
      an implemented type for every implemented interface (class source) or
      extended type (interface source), copies generic parameters and
      properties, and reads the target's base class for `fromJS`. */
  predicate ClassTouchesTarget(flags: Flags, id: DeclId, d: Declaration)
  {
    || (id.kind == ClassKind && |d.implementations| > 0)
    || (id.kind == InterfaceKind && |d.extendsTypes| > 0)
    || |d.genericParameters| > 0
    || Properties(d.members) != []
    || flags.enableJsConversionFunctions
  }

  /** An entry a class run cannot fill whatever its target holds. */
  predicate ClassFails(store: map<DeclId, Declaration>, flags: Flags, e: MapEntry)
    requires e.key in store
  {
    Rejected(store, e.key) || (e.item.classForm.None? && ClassTouchesTarget(flags, e.key, store[e.key]))
  }

  /** The dispatch on the source's runtime class in `GenerateClasses`. */
  function ClassStep(store: map<DeclId, Declaration>, table: MapTable, flags: Flags, stack: seq<bool>, key: DeclId, target: Declaration)
    : (step: Step)
    requires |stack| > 0 && key in store
    ensures step.stack == stack
    ensures step.decl.name == target.name && step.decl.baseClass == target.baseClass
    ensures Rejected(store, key) ==> step.decl == target && step.error.Some?
    ensures key.kind == OtherKind ==> step.error == Some(UnsupportedDeclaration(key))
    ensures key.kind == InterfaceKind && BadExtends(store[key]) ==>
      step.error == ExtendsFault(store[key].name, store[key].extendsTypes)
    ensures !Rejected(store, key) && Properties(target.members) == [] ==> step.error.None?
    ensures !Top(stack) && ClassShaped(target) ==> ClassShaped(step.decl)
    ensures OnlyFromJsFunctions(target) ==> OnlyFromJsFunctions(step.decl)
  {
    match key.kind
    case ClassKind => GenerateObservableClassFromClass(store[key], target, table, flags, stack)
    case InterfaceKind => GenerateObservableClassFromInterface(store[key], target, table, flags, stack)
    case OtherKind => Step(target, Some(UnsupportedDeclaration(key)), stack)
  }

  /** One iteration of the class run's loop. */
  function ClassEntry(store: map<DeclId, Declaration>, table: MapTable, flags: Flags, e: MapEntry, generated: seq<Declaration>, stack: seq<bool>)
    : (r: Filled)
    requires |stack| > 0
    requires e.key in store && FormWithin(e.item.classForm, |generated|)
    ensures r.stack == stack
    ensures |r.generated| == |generated|
    ensures forall i :: 0 <= i < |generated| ==>
      r.generated[i].name == generated[i].name && r.generated[i].baseClass == generated[i].baseClass
    ensures forall i :: 0 <= i < |generated| && SlotOf(ClassKind, e) != Some(i) ==> r.generated[i] == generated[i]
    ensures ClassFails(store, flags, e) ==> r.error.Some?
    ensures r.error.Some? && e.item.classForm.Some? && Properties(generated[e.item.classForm.value.index].members) == [] ==>
      ClassFails(store, flags, e)
    ensures r.error.Some? && e.item.classForm.None? ==> ClassFails(store, flags, e)
    ensures !Top(stack) ==> forall i :: 0 <= i < |generated| && ClassShaped(generated[i]) ==> ClassShaped(r.generated[i])
    ensures forall i :: 0 <= i < |generated| && OnlyFromJsFunctions(generated[i]) ==> OnlyFromJsFunctions(r.generated[i])
  {
    match e.item.classForm
    case None => ClassEntryWithoutForm(store, flags, e.key, generated, stack)
    case Some(id) => ClassEntryAt(store, table, flags, e.key, id.index, generated, stack)
  }

  /** The class run's iteration for an entry with no class form: the source
      is still dispatched, so a rejection is raised first; otherwise the null
      target is an exception exactly when the source would write to it. */
  function ClassEntryWithoutForm(store: map<DeclId, Declaration>, flags: Flags, key: DeclId, generated: seq<Declaration>, stack: seq<bool>)
    : (r: Filled)
    requires key in store
    ensures r.generated == generated && r.stack == stack
    ensures r.error.Some? <==> Rejected(store, key) || ClassTouchesTarget(flags, key, store[key])
  {
    if key.kind == OtherKind then Filled(generated, Some(UnsupportedDeclaration(key)), stack)
    else if key.kind == InterfaceKind && BadExtends(store[key]) then
      Filled(generated, ExtendsFault(store[key].name, store[key].extendsTypes), stack)
    else if ClassTouchesTarget(flags, key, store[key]) then Filled(generated, Some(NullTarget(key)), stack)
    else Filled(generated, None, stack)
  }

  /** The class run's iteration for an entry whose class form is slot
      `index`: the step's result replaces that slot. */
  function ClassEntryAt(store: map<DeclId, Declaration>, table: MapTable, flags: Flags, key: DeclId, index: nat,
                        generated: seq<Declaration>, stack: seq<bool>)
    : (r: Filled)
    requires |stack| > 0
    requires key in store && index < |generated|
    ensures r.stack == stack
    ensures |r.generated| == |generated|
    ensures forall i :: 0 <= i < |generated| ==>
      r.generated[i].name == generated[i].name && r.generated[i].baseClass == generated[i].baseClass
    ensures forall i :: 0 <= i < |generated| && i != index ==> r.generated[i] == generated[i]
    ensures Rejected(store, key) ==> r.error.Some?
    ensures r.error.Some? && Properties(generated[index].members) == [] ==> Rejected(store, key)
    ensures !Top(stack) ==> forall i :: 0 <= i < |generated| && ClassShaped(generated[i]) ==> ClassShaped(r.generated[i])
    ensures forall i :: 0 <= i < |generated| && OnlyFromJsFunctions(generated[i]) ==> OnlyFromJsFunctions(r.generated[i])
  {
    var step := ClassStep(store, table, flags, stack, key, generated[index]);
    Filled(generated[index := step.decl], step.error, step.stack)
  }

  /** The class run's loop over `entries`, stopping at the first exception. */
  function FillClasses(store: map<DeclId, Declaration>, table: MapTable, flags: Flags, entries: seq<MapEntry>, generated: seq<Declaration>, stack: seq<bool>)
    : (r: Filled)
    requires |stack| > 0
    requires EntriesWithin(store, entries, |generated|)
    ensures r.stack == stack
    ensures |r.generated| == |generated|
    ensures forall i :: 0 <= i < |generated| ==>
      r.generated[i].name == generated[i].name && r.generated[i].baseClass == generated[i].baseClass
    ensures forall i :: 0 <= i < |generated| && !Targeted(ClassKind, entries, i) ==> r.generated[i] == generated[i]
    ensures (exists j :: 0 <= j < |entries| && ClassFails(store, flags, entries[j])) ==> r.error.Some?
    ensures !Top(stack) ==> forall i :: 0 <= i < |generated| && ClassShaped(generated[i]) ==> ClassShaped(r.generated[i])
    ensures forall i :: 0 <= i < |generated| && OnlyFromJsFunctions(generated[i]) ==> OnlyFromJsFunctions(r.generated[i])
  {
    if |entries| == 0 then Filled(generated, None, stack)
    else
      var first := ClassEntry(store, table, flags, entries[0], generated, stack);
      assert forall j :: 1 <= j < |entries| ==> entries[j] == entries[1..][j - 1];
      if first.error.Some? then first
      else
        assert EntriesWithin(store, entries[1..], |first.generated|);
        FillClasses(store, table, flags, entries[1..], first.generated, stack)
  }

  /** The class run's second phase: class shape pushed, the loop over the
      whole table, and the pop of the `finally` block. */
  function ClassPhase(store: map<DeclId, Declaration>, table: MapTable, flags: Flags, generated: seq<Declaration>, stack: seq<bool>)
    : (r: Filled)
    requires ValidTable(table) && EntriesWithin(store, Entries(table), |generated|)
    ensures r.stack == stack
    ensures |r.generated| == |generated|
    ensures forall i :: 0 <= i < |generated| ==>
      r.generated[i].name == generated[i].name && r.generated[i].baseClass == generated[i].baseClass
    ensures forall i :: 0 <= i < |generated| && !Targeted(ClassKind, Entries(table), i) ==> r.generated[i] == generated[i]
    ensures (exists j :: 0 <= j < |Entries(table)| && ClassFails(store, flags, Entries(table)[j])) ==> r.error.Some?
    ensures forall i :: 0 <= i < |generated| && ClassShaped(generated[i]) ==> ClassShaped(r.generated[i])
    ensures forall i :: 0 <= i < |generated| && OnlyFromJsFunctions(generated[i]) ==> OnlyFromJsFunctions(r.generated[i])
  {
    var inner := Push(stack, false);
    var f := FillClasses(store, table, flags, Entries(table), generated, inner);
    assert Pop(f.stack) == stack;
    Filled(f.generated, f.error, Pop(f.stack))
  }

  /** The class phase is its loop under class shape. */
  lemma ClassPhaseLoop(store: map<DeclId, Declaration>, table: MapTable, flags: Flags, generated: seq<Declaration>, stack: seq<bool>)
    requires ValidTable(table) && EntriesWithin(store, Entries(table), |generated|)
    ensures var f := FillClasses(store, table, flags, Entries(table), generated, Push(stack, false));
      ClassPhase(store, table, flags, generated, stack) == Filled(f.generated, f.error, stack)
  {
  }

  /** Every generated declaration an entry fills has no property yet, as a
      fresh skeleton. */
  predicate BareSlots(kind: DeclKind, entries: seq<MapEntry>, generated: seq<Declaration>)
  {
    forall j :: 0 <= j < |entries| && SlotOf(kind, entries[j]).Some? ==>
      SlotOf(kind, entries[j]).value < |generated| && Properties(generated[SlotOf(kind, entries[j]).value].members) == []
  }

  /** Filling one entry's declaration leaves the other entries' ones alone. */
  lemma {:induction false} BareSlotsTail(kind: DeclKind, entries: seq<MapEntry>, generated: seq<Declaration>, generated': seq<Declaration>)
    requires |entries| > 0 && DistinctSlots(kind, entries) && BareSlots(kind, entries, generated)
    requires |generated'| == |generated|
    requires forall i :: 0 <= i < |generated| && SlotOf(kind, entries[0]) != Some(i) ==> generated'[i] == generated[i]
    ensures DistinctSlots(kind, entries[1..]) && BareSlots(kind, entries[1..], generated')
  {
    forall j | 0 <= j < |entries[1..]| && SlotOf(kind, entries[1..][j]).Some?
      ensures SlotOf(kind, entries[1..][j]).value < |generated'|
      ensures Properties(generated'[SlotOf(kind, entries[1..][j]).value].members) == []
    {
      assert entries[1..][j] == entries[j + 1];
      assert SlotOf(kind, entries[0]) != SlotOf(kind, entries[j + 1]);
    }
    forall i, j | 0 <= i < j < |entries[1..]| && SlotOf(kind, entries[1..][i]).Some?
      ensures SlotOf(kind, entries[1..][i]) != SlotOf(kind, entries[1..][j])
    {
      assert entries[1..][i] == entries[i + 1] && entries[1..][j] == entries[j + 1];
    }
  }

  /** On fresh skeletons, no two entries sharing one, the class run fails
      exactly when some entry fails whatever its target holds: a rejected
      declaration, or one without a class form whose generation would touch
      the missing target. */
  lemma {:induction false} FillClassesFails(store: map<DeclId, Declaration>, table: MapTable, flags: Flags, entries: seq<MapEntry>,
                                            generated: seq<Declaration>, stack: seq<bool>)
    requires |stack| > 0
    requires EntriesWithin(store, entries, |generated|)
    requires DistinctSlots(ClassKind, entries) && BareSlots(ClassKind, entries, generated)
    ensures FillClasses(store, table, flags, entries, generated, stack).error.Some? <==>
      exists j :: 0 <= j < |entries| && ClassFails(store, flags, entries[j])
  {
    if |entries| > 0 {
      assert entries[0] in entries;
      var first := ClassEntry(store, table, flags, entries[0], generated, stack);
      assert forall j :: 1 <= j < |entries| ==> entries[j] == entries[1..][j - 1];
      if first.error.None? {
        assert EntriesWithin(store, entries[1..], |first.generated|);
        BareSlotsTail(ClassKind, entries, generated, first.generated);
        FillClassesFails(store, table, flags, entries[1..], first.generated, stack);
      }
    }
  }

  /** When no two entries share a generated declaration and the loop runs to
      the end, each entry's generated class is the dispatched generation
      applied once to what it held before. */
  lemma {:induction false} FillClassesSlots(store: map<DeclId, Declaration>, table: MapTable, flags: Flags, entries: seq<MapEntry>,
                                            generated: seq<Declaration>, stack: seq<bool>, j: nat)
    requires |stack| > 0
    requires EntriesWithin(store, entries, |generated|)
    requires DistinctSlots(ClassKind, entries)
    requires j < |entries| && SlotOf(ClassKind, entries[j]).Some?
    requires FillClasses(store, table, flags, entries, generated, stack).error.None?
    ensures var s := SlotOf(ClassKind, entries[j]).value;
      s < |generated| &&
      FillClasses(store, table, flags, entries, generated, stack).generated[s] ==
        ClassStep(store, table, flags, stack, entries[j].key, generated[s]).decl
  {
    assert entries[j] in entries;
    var first := ClassEntry(store, table, flags, entries[0], generated, stack);
    assert forall k :: 1 <= k < |entries| ==> entries[k] == entries[1..][k - 1];
    assert EntriesWithin(store, entries[1..], |first.generated|);
    var s := SlotOf(ClassKind, entries[j]).value;
    if j == 0 {
      forall k | 0 <= k < |entries[1..]|
        ensures SlotOf(ClassKind, entries[1..][k]) != Some(s)
      {
        assert entries[1..][k] == entries[k + 1];
      }
      assert !Targeted(ClassKind, entries[1..], s);
    } else {
      FillClassesSlots(store, table, flags, entries[1..], first.generated, stack, j - 1);
      assert SlotOf(ClassKind, entries[0]) != SlotOf(ClassKind, entries[j]);
    }
  }
}
