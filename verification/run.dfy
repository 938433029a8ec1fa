/**
 One generation run of the Knockout generator: `GenerateObservableModule`,
 `GenerateInterfaces` and `GenerateClasses`.

 A run has two phases. The first creates one skeleton declaration per
 non-null source declaration, appends it to the target module and records it
 in the run's table (the class form in a class run, the interface form in an
 interface run, never both). The second visits the table in insertion order
 and fills each skeleton, with the run's shape pushed on the stack for the
 whole phase and popped on every exit.

 The table belongs to the generator and outlives a run: a run starts from
 whatever earlier runs left in it. The lemmas about a run's results take a
 fresh generator (`EmptyTable`); the ones about a class run followed by an
 interface run on one generator take any table. The declarations a run
 creates are `Generated(kind, i)`, where `i` is the skeleton's position among
 all declarations generated into the target so far.
 */
module Runs {
  import opened Model
  import opened Mapping
  import opened Observable
  import opened FromJs
  import opened Generator
  import opened Fill

  /** The target module's member list and the declarations the run created. */
  datatype Target = Target(members: seq<ModuleElement>, generated: seq<Declaration>)

  /** The end state of a run: target, table, the exception it ended with, and
      the shape stack as the caller sees it afterwards. */
  datatype Run = Run(target: Target, table: MapTable, error: Option<GenError>, stack: seq<bool>)

  /** `new MapItem() { Interface = intf }` or `new MapItem() { Class = cls }`. */
  function FormFor(kind: DeclKind, id: DeclId): MapItem
  {
    if kind == InterfaceKind then MapItem(None, Some(id)) else MapItem(Some(id), None)
  }

  /** Element `n` is the last one naming its declaration: the element whose
      skeleton the table keeps. */
  predicate IsLast(ids: seq<DeclId>, n: nat)
  {
    n < |ids| && forall n' {:trigger Apart(ids, n', n)} :: n < n' < |ids| ==> Apart(ids, n', n)
  }

  /** Each declaration has one last element naming it. */
  lemma LastUnique(ids: seq<DeclId>, n: nat, n': nat)
    requires IsLast(ids, n) && IsLast(ids, n')
    ensures ids[n] == ids[n'] ==> n == n'
  {
    if n < n' {
      assert Apart(ids, n', n);
    } else if n' < n {
      assert Apart(ids, n, n');
    }
  }

  /** Generated declaration `s` is the skeleton of the last element naming
      its declaration, when a run's skeletons start at `base`. */
  predicate KeptSlot(ids: seq<DeclId>, base: nat, s: nat)
  {
    base <= s && IsLast(ids, s - base)
  }

  /** Every declaration the elements name has a last element naming it. */
  lemma {:induction false} LastOccurrence(ids: seq<DeclId>, k: DeclId) returns (n: nat)
    requires k in ids
    ensures IsLast(ids, n) && ids[n] == k
  {
    var last := |ids| - 1;
    if ids[last] == k {
      n := last;
    } else {
      assert k in ids[..last] by {
        var i :| 0 <= i < |ids| && ids[i] == k;
        assert ids[..last][i] == k;
      }
      n := LastOccurrence(ids[..last], k);
      assert ids[..last][n] == ids[n];
      forall n' | n < n' < |ids|
        ensures Apart(ids, n', n)
      {
        if n' < last {
          assert Apart(ids[..last], n', n);
          assert ids[..last][n'] == ids[n'];
        }
      }
    }
  }

  /** The module elements for `n` new skeletons numbered from `base`. */
  function NewElements(kind: DeclKind, base: nat, n: nat): (es: seq<ModuleElement>)
    ensures |es| == n
    ensures forall i :: 0 <= i < n ==> es[i] == DeclarationElement(Some(Generated(kind, base + i)))
  {
    seq(n, i requires 0 <= i < n => DeclarationElement(Some(Generated(kind, base + i))))
  }

  /** The skeletons of the first phase, one per declaration id, in order. */
  function Skeletons(store: map<DeclId, Declaration>, ids: seq<DeclId>): (gs: seq<Declaration>)
    requires forall id :: id in ids ==> id in store
    ensures |gs| == |ids|
  {
    seq(|ids|, i requires 0 <= i < |ids| => Skeleton(store[ids[i]].name))
  }

  /** The first phase, target side: one skeleton per declaration id, in
      order, each appended to the target module. */
  function SkeletonTarget(store: map<DeclId, Declaration>, ids: seq<DeclId>, kind: DeclKind, target: Target): (r: Target)
    requires forall id :: id in ids ==> id in store
    ensures |r.generated| == |target.generated| + |ids|
  {
    Target(target.members + NewElements(kind, |target.generated|, |ids|), target.generated + Skeletons(store, ids))
  }

  /** The first phase, table side: `_map[declaration] = new MapItem { … }` for
      each id in order, so the last id is written last. */
  function SkeletonTable(ids: seq<DeclId>, kind: DeclKind, base: nat, table: MapTable): (r: MapTable)
    requires ValidTable(table)
    ensures ValidTable(r)
  {
    if |ids| == 0 then table
    else
      var n := |ids| - 1;
      var prev := SkeletonTable(ids[..n], kind, base, table);
      var item := FormFor(kind, Generated(kind, base + n));
      PutKeepsValid(prev, ids[n], item);
      Put(prev, ids[n], item)
  }

  /** The ids before the last one are all among the ids. */
  lemma PrefixIds(ids: seq<DeclId>, k: DeclId)
    requires |ids| > 0
    ensures k in ids <==> k in ids[..|ids| - 1] || k == ids[|ids| - 1]
  {
    assert ids == ids[..|ids| - 1] + [ids[|ids| - 1]];
  }

  /** The first phase adds exactly the source declarations to the table's keys. */
  lemma {:induction false} SkeletonTableKeys(ids: seq<DeclId>, kind: DeclKind, base: nat, table: MapTable, k: DeclId)
    requires ValidTable(table)
    ensures k in SkeletonTable(ids, kind, base, table).items <==> k in table.items || k in ids
  {
    if |ids| > 0 {
      SkeletonTableKeys(ids[..|ids| - 1], kind, base, table, k);
      PrefixIds(ids, k);
    }
  }

  /** The first phase leaves the entries of other declarations as they were. */
  lemma {:induction false} SkeletonTableOthers(ids: seq<DeclId>, kind: DeclKind, base: nat, table: MapTable, k: DeclId)
    requires ValidTable(table)
    requires k !in ids
    ensures Lookup(SkeletonTable(ids, kind, base, table), k) == Lookup(table, k)
  {
    if |ids| > 0 {
      PrefixIds(ids, k);
      SkeletonTableOthers(ids[..|ids| - 1], kind, base, table, k);
    }
  }

  /** An element that is the last naming its declaration, but not the last
      element, is still the last one once the last element is dropped. */
  lemma IsLastPrefix(ids: seq<DeclId>, n: nat)
    requires IsLast(ids, n) && n < |ids| - 1
    ensures IsLast(ids[..|ids| - 1], n) && ids[..|ids| - 1][n] == ids[n]
  {
    var last := |ids| - 1;
    forall n' | n < n' < last
      ensures Apart(ids[..last], n', n)
    {
      assert Apart(ids, n', n);
      assert ids[..last][n'] == ids[n'];
    }
  }

  /** After the first phase the entry of the declaration that element `n`
      names, when no later element names it, holds that element's skeleton
      and only the run's form. */
  lemma {:induction false} SkeletonTableLookup(ids: seq<DeclId>, kind: DeclKind, base: nat, table: MapTable, n: nat)
    requires ValidTable(table)
    requires IsLast(ids, n)
    ensures Lookup(SkeletonTable(ids, kind, base, table), ids[n]) == Some(FormFor(kind, Generated(kind, base + n)))
  {
    var last := |ids| - 1;
    var prev := SkeletonTable(ids[..last], kind, base, table);
    var item := FormFor(kind, Generated(kind, base + last));
    assert SkeletonTable(ids, kind, base, table) == Put(prev, ids[last], item);
    PutLookup(prev, ids[last], item, ids[n]);
    if n != last {
      assert Apart(ids, last, n);
      IsLastPrefix(ids, n);
      SkeletonTableLookup(ids[..last], kind, base, table, n);
    }
  }

  /** The first phase keeps the table within the store and the generated
      declarations, now `base + |ids|` of them. */
  lemma SkeletonTableWithin(store: map<DeclId, Declaration>, ids: seq<DeclId>, kind: DeclKind, base: nat, table: MapTable)
    requires ValidTable(table)
    requires forall id :: id in ids ==> id in store
    requires EntriesWithin(store, Entries(table), base)
    ensures EntriesWithin(store, Entries(SkeletonTable(ids, kind, base, table)), base + |ids|)
  {
    EntriesToItemsWithin(store, table, base);
    SkeletonTableItemsWithin(store, ids, kind, base, table);
    ItemsToEntriesWithin(store, SkeletonTable(ids, kind, base, table), base + |ids|);
  }

  /** Every key of the table is a source declaration and every form it holds
      is one of the first `n` generated declarations. */
  predicate ItemsWithin(store: map<DeclId, Declaration>, table: MapTable, n: nat)
  {
    forall k :: k in table.items ==>
      k in store && FormWithin(table.items[k].classForm, n) && FormWithin(table.items[k].interfaceForm, n)
  }

  /** The first phase keeps the items within the store and one more
      generated declaration per element. */
  lemma {:induction false} SkeletonTableItemsWithin(store: map<DeclId, Declaration>, ids: seq<DeclId>, kind: DeclKind, base: nat, table: MapTable)
    requires ValidTable(table)
    requires forall id :: id in ids ==> id in store
    requires ItemsWithin(store, table, base)
    ensures ItemsWithin(store, SkeletonTable(ids, kind, base, table), base + |ids|)
  {
    if |ids| > 0 {
      var n := |ids| - 1;
      assert forall id :: id in ids[..n] ==> id in ids;
      SkeletonTableItemsWithin(store, ids[..n], kind, base, table);
      SkeletonTableLast(ids, kind, base, table);
      assert ids[n] in ids;
    }
  }

  /** The first phase's last write. */
  lemma SkeletonTableLast(ids: seq<DeclId>, kind: DeclKind, base: nat, table: MapTable)
    requires ValidTable(table) && |ids| > 0
    ensures SkeletonTable(ids, kind, base, table).items ==
      SkeletonTable(ids[..|ids| - 1], kind, base, table).items[ids[|ids| - 1] := FormFor(kind, Generated(kind, base + |ids| - 1))]
  {
  }

  /** A valid table whose entries are within bounds has its items within
      them, and conversely. */
  lemma EntriesToItemsWithin(store: map<DeclId, Declaration>, table: MapTable, n: nat)
    requires ValidTable(table) && EntriesWithin(store, Entries(table), n)
    ensures ItemsWithin(store, table, n)
  {
    var es := Entries(table);
    forall k | k in table.items
      ensures k in store && FormWithin(table.items[k].classForm, n) && FormWithin(table.items[k].interfaceForm, n)
    {
      var j :| 0 <= j < |table.order| && table.order[j] == k;
      assert es[j] == MapEntry(k, table.items[k]);
    }
  }

  lemma ItemsToEntriesWithin(store: map<DeclId, Declaration>, table: MapTable, n: nat)
    requires ValidTable(table) && ItemsWithin(store, table, n)
    ensures EntriesWithin(store, Entries(table), n)
  {
  }

  /** What the first phase leaves on a fresh generator: exactly the source
      declarations as keys, and for each the skeleton of the last element
      naming it, with only the run's form. */
  predicate FreshTable(ids: seq<DeclId>, kind: DeclKind, base: nat, m: MapTable)
  {
    && ValidTable(m)
    && (forall k :: k in ids ==> k in m.items)
    && (forall k :: k in m.items ==> k in ids)
    && (forall n {:trigger IsLast(ids, n)} :: 0 <= n < |ids| && IsLast(ids, n) ==> ids[n] in m.items && m.items[ids[n]] == FormFor(kind, Generated(kind, base + n)))
  }

  /** The fresh first phase's table is as `FreshTable` describes. */
  lemma FreshTableIs(ids: seq<DeclId>, kind: DeclKind, base: nat)
    ensures FreshTable(ids, kind, base, SkeletonTable(ids, kind, base, EmptyTable))
  {
    var m := SkeletonTable(ids, kind, base, EmptyTable);
    forall k | k in ids || k in m.items
      ensures k in m.items <==> k in ids
    {
      SkeletonTableKeys(ids, kind, base, EmptyTable, k);
    }
    forall n: nat | n < |ids| && IsLast(ids, n)
      ensures ids[n] in m.items && m.items[ids[n]] == FormFor(kind, Generated(kind, base + n))
    {
      SkeletonTableLookup(ids, kind, base, EmptyTable, n);
    }
  }

  /** Each entry of the fresh first phase's table points to the skeleton of
      the last element naming its key. */
  lemma FreshSlot(ids: seq<DeclId>, kind: DeclKind, base: nat, m: MapTable, j: nat) returns (n: nat)
    requires FreshTable(ids, kind, base, m)
    requires j < |Entries(m)|
    ensures IsLast(ids, n) && ids[n] == Entries(m)[j].key
    ensures SlotOf(kind, Entries(m)[j]) == Some(base + n)
  {
    var e := Entries(m)[j];
    assert e.key == m.order[j] && e.item == m.items[e.key];
    n := LastOccurrence(ids, e.key);
  }

  /** On a fresh generator no two entries share a skeleton. */
  lemma FreshDistinctSlots(ids: seq<DeclId>, kind: DeclKind, base: nat, m: MapTable)
    requires FreshTable(ids, kind, base, m)
    ensures DistinctSlots(kind, Entries(m))
  {
    var es := Entries(m);
    forall i, j | 0 <= i < j < |es| && SlotOf(kind, es[i]).Some?
      ensures SlotOf(kind, es[i]) != SlotOf(kind, es[j])
    {
      var ni := FreshSlot(ids, kind, base, m, i);
      var nj := FreshSlot(ids, kind, base, m, j);
      assert Apart(m.order, i, j);
    }
  }

  /** The generated declarations a run of `kind` fills on a fresh generator
      are the skeletons it created. */
  lemma FreshBareSlots(store: map<DeclId, Declaration>, ids: seq<DeclId>, kind: DeclKind, target: Target, m: MapTable)
    requires forall id :: id in ids ==> id in store
    requires FreshTable(ids, kind, |target.generated|, m)
    ensures BareSlots(kind, Entries(m), SkeletonTarget(store, ids, kind, target).generated)
  {
    var base := |target.generated|;
    var es := Entries(m);
    var g := SkeletonTarget(store, ids, kind, target).generated;
    forall j | 0 <= j < |es| && SlotOf(kind, es[j]).Some?
      ensures SlotOf(kind, es[j]).value < |g| && Properties(g[SlotOf(kind, es[j]).value].members) == []
    {
      var n := FreshSlot(ids, kind, base, m, j);
      SkeletonAt(store, ids, kind, target, base + n);
      assert SlotOf(kind, es[j]).value == base + n && g[base + n].members == [];
    }
  }

  /** A skeleton has no member and no base class, so it has every shape. */
  lemma SkeletonAt(store: map<DeclId, Declaration>, ids: seq<DeclId>, kind: DeclKind, target: Target, i: nat)
    requires forall id :: id in ids ==> id in store
    requires i < |target.generated| + |ids|
    ensures var g := SkeletonTarget(store, ids, kind, target).generated;
      && (i < |target.generated| ==> g[i] == target.generated[i])
      && (|target.generated| <= i ==> g[i] == Skeleton(store[ids[i - |target.generated|]].name))
  {
    var g := SkeletonTarget(store, ids, kind, target).generated;
    if i < |target.generated| {
      assert g[..|target.generated|][i] == g[i];
    } else {
      assert g[|target.generated| + (i - |target.generated|)] == Skeleton(store[ids[i - |target.generated|]].name);
    }
  }

  /** `GenerateInterfaces`: a skeleton interface per non-null declaration
      element, then the loop over the whole table under interface shape. */
  function GenerateInterfaces(store: map<DeclId, Declaration>, elements: seq<ModuleElement>, target: Target, table: MapTable, stack: seq<bool>)
    : (r: Run)
    requires Closed(store, elements)
    requires ValidTable(table) && EntriesWithin(store, Entries(table), |target.generated|)
    ensures r.stack == stack
    ensures r.target.members == target.members + NewElements(InterfaceKind, |target.generated|, |DeclarationIds(elements)|)
    ensures r.table == SkeletonTable(DeclarationIds(elements), InterfaceKind, |target.generated|, table)
    ensures |r.target.generated| == |target.generated| + |DeclarationIds(elements)|
    ensures ValidTable(r.table) && EntriesWithin(store, Entries(r.table), |r.target.generated|)
    ensures r.error.Some? <==> exists j :: 0 <= j < |Entries(r.table)| && InterfaceFails(store, Entries(r.table)[j])
    ensures r.error.Some? ==> r.error.value.NullTarget?
    ensures forall i :: 0 <= i < |target.generated| && ContractOnly(target.generated[i]) ==> ContractOnly(r.target.generated[i])
  {
    var ids := DeclarationIds(elements);
    var base := |target.generated|;
    var t := SkeletonTarget(store, ids, InterfaceKind, target);
    var m := SkeletonTable(ids, InterfaceKind, base, table);
    SkeletonTableWithin(store, ids, InterfaceKind, base, table);
    assert forall i :: 0 <= i < |target.generated| ==> t.generated[i] == target.generated[i];
    var f := InterfacePhase(store, m, t.generated, stack);
    Run(Target(t.members, f.generated), m, f.error, f.stack)
  }

  /** Every interface an interface run creates has the interface shape:
      no property has an initializer. */
  lemma InterfaceRunShape(store: map<DeclId, Declaration>, elements: seq<ModuleElement>, target: Target, table: MapTable, stack: seq<bool>, i: nat)
    requires Closed(store, elements)
    requires ValidTable(table) && EntriesWithin(store, Entries(table), |target.generated|)
    requires |target.generated| <= i < |GenerateInterfaces(store, elements, target, table, stack).target.generated|
    ensures ContractOnly(GenerateInterfaces(store, elements, target, table, stack).target.generated[i])
  {
    var ids := DeclarationIds(elements);
    var t := SkeletonTarget(store, ids, InterfaceKind, target);
    SkeletonAt(store, ids, InterfaceKind, target, i);
    SkeletonTableWithin(store, ids, InterfaceKind, |target.generated|, table);
  }

  /** On a fresh generator a run fills exactly the skeletons that the table
      kept: for each source declaration, the one created for the last
      element naming it. */
  lemma FreshTargeted(ids: seq<DeclId>, kind: DeclKind, base: nat, m: MapTable, s: nat)
    requires FreshTable(ids, kind, base, m)
    ensures Targeted(kind, Entries(m), s) <==> KeptSlot(ids, base, s)
  {
    var es := Entries(m);
    if Targeted(kind, es, s) {
      var j :| 0 <= j < |es| && SlotOf(kind, es[j]) == Some(s);
      var n := FreshSlot(ids, kind, base, m, j);
      assert s == base + n;
    }
    if KeptSlot(ids, base, s) {
      var j := EntryOf(m, ids[s - base]);
      var n := FreshSlot(ids, kind, base, m, j);
      assert ids[n] == ids[s - base];
      LastUnique(ids, n, s - base);
      assert SlotOf(kind, es[j]) == Some(s);
    }
  }

  /** The interface run's second phase on the fresh first phase's table
      does not fail: every entry has its interface form. */
  lemma FreshInterfacePhaseSucceeds(store: map<DeclId, Declaration>, ids: seq<DeclId>, base: nat, m: MapTable,
                                    generated: seq<Declaration>, stack: seq<bool>)
    requires FreshTable(ids, InterfaceKind, base, m)
    requires EntriesWithin(store, Entries(m), |generated|)
    ensures InterfacePhase(store, m, generated, stack).error.None?
  {
    var es := Entries(m);
    forall j | 0 <= j < |es|
      ensures !InterfaceFails(store, es[j])
    {
      var n := FreshSlot(ids, InterfaceKind, base, m, j);
    }
  }

  /** The skeleton of the last element naming a declaration is filled from
      that declaration under interface shape. */
  lemma FreshInterfacePhaseKept(store: map<DeclId, Declaration>, ids: seq<DeclId>, base: nat, m: MapTable,
                                generated: seq<Declaration>, stack: seq<bool>, s: nat)
    requires FreshTable(ids, InterfaceKind, base, m)
    requires EntriesWithin(store, Entries(m), |generated|)
    requires s < |generated| && KeptSlot(ids, base, s)
    ensures InterfacePhase(store, m, generated, stack).generated[s] ==
      GenerateObservableInterface(ids[s - base], store[ids[s - base]], generated[s], m, true)
  {
    var inner := Push(stack, true);
    var es := Entries(m);
    var f := FillInterfaces(store, m, es, generated, inner);
    InterfacePhaseLoop(store, m, generated, stack);
    FreshInterfacePhaseSucceeds(store, ids, base, m, generated, stack);
    assert f.generated[s] == GenerateObservableInterface(ids[s - base], store[ids[s - base]], generated[s], m, true) by {
      var j := EntryOf(m, ids[s - base]);
      var n := FreshSlot(ids, InterfaceKind, base, m, j);
      LastUnique(ids, n, s - base);
      assert SlotOf(InterfaceKind, es[j]).value == s && es[j].key == ids[s - base];
      FreshDistinctSlots(ids, InterfaceKind, base, m);
      FillInterfacesSlots(store, m, es, generated, inner, j);
    }
  }

  /** Every other generated declaration is left as it was. */
  lemma FreshInterfacePhaseUntouched(store: map<DeclId, Declaration>, ids: seq<DeclId>, base: nat, m: MapTable,
                                     generated: seq<Declaration>, stack: seq<bool>, s: nat)
    requires FreshTable(ids, InterfaceKind, base, m)
    requires EntriesWithin(store, Entries(m), |generated|)
    requires s < |generated| && !KeptSlot(ids, base, s)
    ensures InterfacePhase(store, m, generated, stack).generated[s] == generated[s]
  {
    FreshTargeted(ids, InterfaceKind, base, m, s);
  }

  /** An interface run on a fresh generator is its second phase over the
      fresh first phase's table and the skeletons it appended. */
  lemma FreshInterfaceRunIsPhase(store: map<DeclId, Declaration>, elements: seq<ModuleElement>, target: Target, stack: seq<bool>)
    requires Closed(store, elements)
    ensures var ids := DeclarationIds(elements);
      var m := SkeletonTable(ids, InterfaceKind, |target.generated|, EmptyTable);
      && FreshTable(ids, InterfaceKind, |target.generated|, m)
      && EntriesWithin(store, Entries(m), |SkeletonTarget(store, ids, InterfaceKind, target).generated|)
    ensures var ids := DeclarationIds(elements);
      var m := SkeletonTable(ids, InterfaceKind, |target.generated|, EmptyTable);
      var t := SkeletonTarget(store, ids, InterfaceKind, target);
      var f := InterfacePhase(store, m, t.generated, stack);
      GenerateInterfaces(store, elements, target, EmptyTable, stack) == Run(Target(t.members, f.generated), m, f.error, stack)
  {
    var ids := DeclarationIds(elements);
    SkeletonTableWithin(store, ids, InterfaceKind, |target.generated|, EmptyTable);
    FreshTableIs(ids, InterfaceKind, |target.generated|);
  }

  /** An interface run on a fresh generator does not fail. */
  lemma FreshInterfaceRunSucceeds(store: map<DeclId, Declaration>, elements: seq<ModuleElement>, target: Target, stack: seq<bool>)
    requires Closed(store, elements)
    ensures GenerateInterfaces(store, elements, target, EmptyTable, stack).error.None?
  {
    var ids := DeclarationIds(elements);
    FreshInterfaceRunIsPhase(store, elements, target, stack);
    FreshInterfacePhaseSucceeds(store, ids, |target.generated|, SkeletonTable(ids, InterfaceKind, |target.generated|, EmptyTable),
                                SkeletonTarget(store, ids, InterfaceKind, target).generated, stack);
  }

  /** On a fresh generator the skeleton of the last element naming a
      declaration becomes `GenerateObservableInterface` of that declaration
      under interface shape, with the run's final table. */
  lemma FreshInterfaceRunKept(store: map<DeclId, Declaration>, elements: seq<ModuleElement>, target: Target, stack: seq<bool>, i: nat)
    requires Closed(store, elements)
    requires KeptSlot(DeclarationIds(elements), |target.generated|, i)
    ensures var k := DeclarationIds(elements)[i - |target.generated|];
      var r := GenerateInterfaces(store, elements, target, EmptyTable, stack);
      r.target.generated[i] == GenerateObservableInterface(k, store[k], Skeleton(store[k].name), r.table, true)
  {
    var ids := DeclarationIds(elements);
    var base := |target.generated|;
    assert ids[i - base] == DeclarationIds(elements)[i - |target.generated|];
    var m := SkeletonTable(ids, InterfaceKind, base, EmptyTable);
    var t := SkeletonTarget(store, ids, InterfaceKind, target);
    var k := ids[i - base];
    assert ValidTable(m) && EntriesWithin(store, Entries(m), |t.generated|) by {
      FreshInterfaceRunIsPhase(store, elements, target, stack);
    }
    var f := InterfacePhase(store, m, t.generated, stack);
    var r := GenerateInterfaces(store, elements, target, EmptyTable, stack);
    assert r.table == m && r.target.generated == f.generated by {
      FreshInterfaceRunIsPhase(store, elements, target, stack);
    }
    assert t.generated[i] == Skeleton(store[k].name) by {
      assert base <= i;
      SkeletonAt(store, ids, InterfaceKind, target, i);
    }
    assert f.generated[i] == GenerateObservableInterface(k, store[k], t.generated[i], m, true) by {
      FreshInterfaceRunIsPhase(store, elements, target, stack);
      FreshInterfacePhaseKept(store, ids, base, m, t.generated, stack, i);
    }
    assert r.target.generated[i] == f.generated[i];
    assert f.generated[i] == GenerateObservableInterface(k, store[k], Skeleton(store[k].name), r.table, true);
  }

  /** On a fresh generator every other generated declaration keeps what the
      first phase left: its earlier content, or an empty skeleton. */
  lemma FreshInterfaceRunUntouched(store: map<DeclId, Declaration>, elements: seq<ModuleElement>, target: Target, stack: seq<bool>,
                                   i: nat)
    requires Closed(store, elements)
    requires i < |target.generated| + |DeclarationIds(elements)|
    requires !KeptSlot(DeclarationIds(elements), |target.generated|, i)
    ensures var r := GenerateInterfaces(store, elements, target, EmptyTable, stack);
      r.target.generated[i] == SkeletonTarget(store, DeclarationIds(elements), InterfaceKind, target).generated[i]
  {
    var ids := DeclarationIds(elements);
    var base := |target.generated|;
    var m := SkeletonTable(ids, InterfaceKind, base, EmptyTable);
    var t := SkeletonTarget(store, ids, InterfaceKind, target);
    assert ValidTable(m) && EntriesWithin(store, Entries(m), |t.generated|) by {
      FreshInterfaceRunIsPhase(store, elements, target, stack);
    }
    var f := InterfacePhase(store, m, t.generated, stack);
    var r := GenerateInterfaces(store, elements, target, EmptyTable, stack);
    assert r.target.generated == f.generated by {
      FreshInterfaceRunIsPhase(store, elements, target, stack);
    }
    assert f.generated[i] == t.generated[i] by {
      FreshInterfaceRunIsPhase(store, elements, target, stack);
      FreshInterfacePhaseUntouched(store, ids, base, m, t.generated, stack, i);
    }
  }

  /** An interface run on a fresh generator does not fail. Each skeleton the
      table kept becomes `GenerateObservableInterface` of its source under
      interface shape, with the run's final table; a skeleton of an earlier
      element naming the same declaration stays empty; the declarations
      generated before are untouched. */
  lemma FreshInterfaceRun(store: map<DeclId, Declaration>, elements: seq<ModuleElement>, target: Target, stack: seq<bool>, i: nat)
    requires Closed(store, elements)
    requires i < |target.generated| + |DeclarationIds(elements)|
    ensures var ids := DeclarationIds(elements);
      var base := |target.generated|;
      var r := GenerateInterfaces(store, elements, target, EmptyTable, stack);
      && r.error.None?
      && (i < base ==> r.target.generated[i] == target.generated[i])
      && (base <= i && IsLast(ids, i - base) ==>
            r.target.generated[i] ==
              GenerateObservableInterface(ids[i - base], store[ids[i - base]], Skeleton(store[ids[i - base]].name), r.table, true))
      && (base <= i && !IsLast(ids, i - base) ==>
            r.target.generated[i] == Skeleton(store[ids[i - base]].name))
  {
    var ids := DeclarationIds(elements);
    FreshInterfaceRunSucceeds(store, elements, target, stack);
    if KeptSlot(ids, |target.generated|, i) {
      FreshInterfaceRunKept(store, elements, target, stack, i);
    } else {
      FreshInterfaceRunUntouched(store, elements, target, stack, i);
      SkeletonAt(store, ids, InterfaceKind, target, i);
    }
  }

  /** `GenerateClasses`: a skeleton class per non-null declaration element,
      then the loop over the whole table under class shape. */
  function GenerateClasses(store: map<DeclId, Declaration>, elements: seq<ModuleElement>, target: Target, table: MapTable, flags: Flags, stack: seq<bool>)
    : (r: Run)
    requires Closed(store, elements)
    requires ValidTable(table) && EntriesWithin(store, Entries(table), |target.generated|)
    ensures r.stack == stack
    ensures r.target.members == target.members + NewElements(ClassKind, |target.generated|, |DeclarationIds(elements)|)
    ensures r.table == SkeletonTable(DeclarationIds(elements), ClassKind, |target.generated|, table)
    ensures |r.target.generated| == |target.generated| + |DeclarationIds(elements)|
    ensures ValidTable(r.table) && EntriesWithin(store, Entries(r.table), |r.target.generated|)
    ensures (exists j :: 0 <= j < |Entries(r.table)| && ClassFails(store, flags, Entries(r.table)[j])) ==> r.error.Some?
    ensures forall i :: 0 <= i < |target.generated| && ClassShaped(target.generated[i]) ==> ClassShaped(r.target.generated[i])
    ensures forall i :: 0 <= i < |target.generated| && OnlyFromJsFunctions(target.generated[i]) ==>
      OnlyFromJsFunctions(r.target.generated[i])
  {
    var ids := DeclarationIds(elements);
    var base := |target.generated|;
    var t := SkeletonTarget(store, ids, ClassKind, target);
    var m := SkeletonTable(ids, ClassKind, base, table);
    SkeletonTableWithin(store, ids, ClassKind, base, table);
    assert forall i :: 0 <= i < |target.generated| ==> t.generated[i] == target.generated[i];
    var f := ClassPhase(store, m, flags, t.generated, stack);
    Run(Target(t.members, f.generated), m, f.error, f.stack)
  }

  /** Every class a class run creates has the class shape (no property has a
      type, every one has an initializer) and no base class, so its only
      function member is a `fromJS` that does not call `super.fromJS`. */
  lemma ClassRunShape(store: map<DeclId, Declaration>, elements: seq<ModuleElement>, target: Target, table: MapTable, flags: Flags,
                      stack: seq<bool>, i: nat)
    requires Closed(store, elements)
    requires ValidTable(table) && EntriesWithin(store, Entries(table), |target.generated|)
    requires |target.generated| <= i < |GenerateClasses(store, elements, target, table, flags, stack).target.generated|
    ensures var d := GenerateClasses(store, elements, target, table, flags, stack).target.generated[i];
      && ClassShaped(d) && d.baseClass == NullRef
      && forall m :: m in d.members && m.Function? ==>
        IsFromJs(m.func, false) && m.func.body[0] != Text("super.fromJS(obj);\n")
  {
    var ids := DeclarationIds(elements);
    SkeletonAt(store, ids, ClassKind, target, i);
    SkeletonTableWithin(store, ids, ClassKind, |target.generated|, table);
  }

  /** `GenerateObservableModule`: an interface run or a class run. */
  function GenerateObservableModule(store: map<DeclId, Declaration>, elements: seq<ModuleElement>, target: Target, table: MapTable,
                                    flags: Flags, interfaces: bool, stack: seq<bool>)
    : (r: Run)
    requires Closed(store, elements)
    requires ValidTable(table) && EntriesWithin(store, Entries(table), |target.generated|)
    ensures r.stack == stack
    ensures r.target.members ==
      target.members + NewElements(if interfaces then InterfaceKind else ClassKind, |target.generated|, |DeclarationIds(elements)|)
    ensures |r.target.generated| == |target.generated| + |DeclarationIds(elements)|
    ensures r.table == SkeletonTable(DeclarationIds(elements), if interfaces then InterfaceKind else ClassKind, |target.generated|, table)
    ensures ValidTable(r.table) && EntriesWithin(store, Entries(r.table), |r.target.generated|)
    ensures interfaces ==>
      && (r.error.Some? <==> exists j :: 0 <= j < |Entries(r.table)| && InterfaceFails(store, Entries(r.table)[j]))
      && (r.error.Some? ==> r.error.value.NullTarget?)
    ensures !interfaces ==>
      (exists j :: 0 <= j < |Entries(r.table)| && ClassFails(store, flags, Entries(r.table)[j])) ==> r.error.Some?
  {
    if interfaces then GenerateInterfaces(store, elements, target, table, stack)
    else GenerateClasses(store, elements, target, table, flags, stack)
  }

  /** A run gives each declaration it creates the name of the source
      declaration its element names, and leaves the names of the declarations
      generated before as they were. */
  lemma RunNames(store: map<DeclId, Declaration>, elements: seq<ModuleElement>, target: Target, table: MapTable,
                 flags: Flags, interfaces: bool, stack: seq<bool>, i: nat)
    requires Closed(store, elements)
    requires ValidTable(table) && EntriesWithin(store, Entries(table), |target.generated|)
    requires i < |target.generated| + |DeclarationIds(elements)|
    ensures var g := GenerateObservableModule(store, elements, target, table, flags, interfaces, stack).target.generated;
      && (i < |target.generated| ==> g[i].name == target.generated[i].name)
      && (|target.generated| <= i ==> g[i].name == store[DeclarationIds(elements)[i - |target.generated|]].name)
  {
    var ids := DeclarationIds(elements);
    var kind := if interfaces then InterfaceKind else ClassKind;
    SkeletonAt(store, ids, kind, target, i);
    SkeletonTableWithin(store, ids, kind, |target.generated|, table);
  }

  /** Some element of the module names a declaration a class run rejects. */
  predicate SomeRejected(store: map<DeclId, Declaration>, ids: seq<DeclId>)
    requires forall id :: id in ids ==> id in store
  {
    exists n :: 0 <= n < |ids| && Rejected(store, ids[n])
  }

  /** The class run's second phase on the fresh first phase's table fails
      exactly when a source declaration is rejected. */
  lemma FreshClassPhaseFails(store: map<DeclId, Declaration>, ids: seq<DeclId>, base: nat, m: MapTable, generated: seq<Declaration>,
                             flags: Flags, stack: seq<bool>)
    requires forall id :: id in ids ==> id in store
    requires FreshTable(ids, ClassKind, base, m)
    requires EntriesWithin(store, Entries(m), |generated|)
    requires BareSlots(ClassKind, Entries(m), generated)
    ensures ClassPhase(store, m, flags, generated, stack).error.Some? <==> SomeRejected(store, ids)
  {
    FreshDistinctSlots(ids, ClassKind, base, m);
    FillClassesFails(store, m, flags, Entries(m), generated, Push(stack, false));
    var es := Entries(m);
    forall j | 0 <= j < |es|
      ensures ClassFails(store, flags, es[j]) <==> Rejected(store, es[j].key)
      ensures es[j].key in ids
    {
      var n := FreshSlot(ids, ClassKind, base, m, j);
    }
    if SomeRejected(store, ids) {
      var n :| 0 <= n < |ids| && Rejected(store, ids[n]);
      var j := EntryOf(m, ids[n]);
      assert ClassFails(store, flags, es[j]);
    }
  }

  /** The class run's second phase on the fresh first phase's table, when it
      runs to the end, fills the skeleton of the last element naming a
      declaration from that declaration. */
  lemma FreshClassPhaseKept(store: map<DeclId, Declaration>, ids: seq<DeclId>, base: nat, m: MapTable, generated: seq<Declaration>,
                            flags: Flags, stack: seq<bool>, s: nat)
    requires FreshTable(ids, ClassKind, base, m)
    requires EntriesWithin(store, Entries(m), |generated|)
    requires s < |generated| && KeptSlot(ids, base, s)
    requires ClassPhase(store, m, flags, generated, stack).error.None?
    ensures ClassPhase(store, m, flags, generated, stack).generated[s] ==
      ClassStep(store, m, flags, Push(stack, false), ids[s - base], generated[s]).decl
  {
    var inner := Push(stack, false);
    var es := Entries(m);
    var f := FillClasses(store, m, flags, es, generated, inner);
    ClassPhaseLoop(store, m, flags, generated, stack);
    assert f.generated[s] == ClassStep(store, m, flags, inner, ids[s - base], generated[s]).decl by {
      var j := EntryOf(m, ids[s - base]);
      var n := FreshSlot(ids, ClassKind, base, m, j);
      LastUnique(ids, n, s - base);
      assert SlotOf(ClassKind, es[j]).value == s && es[j].key == ids[s - base];
      FreshDistinctSlots(ids, ClassKind, base, m);
      FillClassesSlots(store, m, flags, es, generated, inner, j);
    }
  }

  /** Every other generated declaration is left as it was. */
  lemma FreshClassPhaseUntouched(store: map<DeclId, Declaration>, ids: seq<DeclId>, base: nat, m: MapTable, generated: seq<Declaration>,
                                 flags: Flags, stack: seq<bool>, s: nat)
    requires FreshTable(ids, ClassKind, base, m)
    requires EntriesWithin(store, Entries(m), |generated|)
    requires s < |generated| && !KeptSlot(ids, base, s)
    ensures ClassPhase(store, m, flags, generated, stack).generated[s] == generated[s]
  {
    FreshTargeted(ids, ClassKind, base, m, s);
  }

  /** A class run on a fresh generator is its second phase over the fresh
      first phase's table and the skeletons it appended. */
  lemma FreshClassRunIsPhase(store: map<DeclId, Declaration>, elements: seq<ModuleElement>, target: Target, flags: Flags,
                             stack: seq<bool>)
    requires Closed(store, elements)
    ensures var ids := DeclarationIds(elements);
      var m := SkeletonTable(ids, ClassKind, |target.generated|, EmptyTable);
      && FreshTable(ids, ClassKind, |target.generated|, m)
      && EntriesWithin(store, Entries(m), |SkeletonTarget(store, ids, ClassKind, target).generated|)
    ensures var ids := DeclarationIds(elements);
      var m := SkeletonTable(ids, ClassKind, |target.generated|, EmptyTable);
      var t := SkeletonTarget(store, ids, ClassKind, target);
      var f := ClassPhase(store, m, flags, t.generated, stack);
      GenerateClasses(store, elements, target, EmptyTable, flags, stack) == Run(Target(t.members, f.generated), m, f.error, stack)
  {
    var ids := DeclarationIds(elements);
    SkeletonTableWithin(store, ids, ClassKind, |target.generated|, EmptyTable);
    FreshTableIs(ids, ClassKind, |target.generated|);
  }

  /** A class run on a fresh generator fails exactly when the module names a
      declaration that is neither a class nor an interface, or an interface
      whose extended types `Any` rejects: a reference to a class, or a null
      entry before any such reference. */
  lemma FreshClassRunFails(store: map<DeclId, Declaration>, elements: seq<ModuleElement>, target: Target, flags: Flags,
                           stack: seq<bool>)
    requires Closed(store, elements)
    ensures GenerateClasses(store, elements, target, EmptyTable, flags, stack).error.Some? <==>
      SomeRejected(store, DeclarationIds(elements))
  {
    var ids := DeclarationIds(elements);
    var base := |target.generated|;
    var m := SkeletonTable(ids, ClassKind, base, EmptyTable);
    FreshClassRunIsPhase(store, elements, target, flags, stack);
    FreshBareSlots(store, ids, ClassKind, target, m);
    FreshClassPhaseFails(store, ids, base, m, SkeletonTarget(store, ids, ClassKind, target).generated, flags, stack);
  }

  /** On a fresh generator, when the class run does not fail, the skeleton of
      the last element naming a declaration is filled from that declaration
      by the class or interface rule under class shape, with the run's final
      table. */
  lemma FreshClassRunKept(store: map<DeclId, Declaration>, elements: seq<ModuleElement>, target: Target, flags: Flags,
                          stack: seq<bool>, i: nat)
    requires Closed(store, elements)
    requires KeptSlot(DeclarationIds(elements), |target.generated|, i)
    requires GenerateClasses(store, elements, target, EmptyTable, flags, stack).error.None?
    ensures var k := DeclarationIds(elements)[i - |target.generated|];
      var r := GenerateClasses(store, elements, target, EmptyTable, flags, stack);
      r.target.generated[i] == ClassStep(store, r.table, flags, Push(stack, false), k, Skeleton(store[k].name)).decl
  {
    var ids := DeclarationIds(elements);
    var base := |target.generated|;
    var m := SkeletonTable(ids, ClassKind, base, EmptyTable);
    var t := SkeletonTarget(store, ids, ClassKind, target);
    FreshClassRunIsPhase(store, elements, target, flags, stack);
    assert ClassPhase(store, m, flags, t.generated, stack).generated[i] ==
      ClassStep(store, m, flags, Push(stack, false), ids[i - base], t.generated[i]).decl by {
      FreshClassPhaseKept(store, ids, base, m, t.generated, flags, stack, i);
    }
    assert t.generated[i] == Skeleton(store[ids[i - base]].name) by {
      SkeletonAt(store, ids, ClassKind, target, i);
    }
    ClassStepOn(store, m, flags, Push(stack, false), ids[i - base], t.generated[i], Skeleton(store[ids[i - base]].name));
  }

  /** The dispatch applied to equal targets gives equal steps. */
  lemma ClassStepOn(store: map<DeclId, Declaration>, table: MapTable, flags: Flags, stack: seq<bool>, key: DeclId,
                    a: Declaration, b: Declaration)
    requires |stack| > 0 && key in store && a == b
    ensures ClassStep(store, table, flags, stack, key, a) == ClassStep(store, table, flags, stack, key, b)
  {
  }

  /** On a fresh generator every other generated declaration keeps what the
      first phase left: its earlier content, or an empty skeleton. */
  lemma FreshClassRunUntouched(store: map<DeclId, Declaration>, elements: seq<ModuleElement>, target: Target, flags: Flags,
                               stack: seq<bool>, i: nat)
    requires Closed(store, elements)
    requires i < |target.generated| + |DeclarationIds(elements)|
    requires !KeptSlot(DeclarationIds(elements), |target.generated|, i)
    ensures var r := GenerateClasses(store, elements, target, EmptyTable, flags, stack);
      r.target.generated[i] == SkeletonTarget(store, DeclarationIds(elements), ClassKind, target).generated[i]
  {
    var ids := DeclarationIds(elements);
    var base := |target.generated|;
    var m := SkeletonTable(ids, ClassKind, base, EmptyTable);
    var t := SkeletonTarget(store, ids, ClassKind, target);
    assert ValidTable(m) && EntriesWithin(store, Entries(m), |t.generated|) by {
      FreshClassRunIsPhase(store, elements, target, flags, stack);
    }
    var f := ClassPhase(store, m, flags, t.generated, stack);
    var r := GenerateClasses(store, elements, target, EmptyTable, flags, stack);
    assert r.target.generated == f.generated by {
      FreshClassRunIsPhase(store, elements, target, flags, stack);
    }
    assert f.generated[i] == t.generated[i] by {
      FreshClassRunIsPhase(store, elements, target, flags, stack);
      FreshClassPhaseUntouched(store, ids, base, m, t.generated, flags, stack, i);
    }
  }

  /** On a fresh generator, when the class run does not fail, each skeleton
      the table kept is filled from its source by the class or interface
      rule under class shape; a skeleton of an earlier element naming the
      same declaration stays empty, and the declarations generated before
      are untouched. */
  lemma FreshClassRunSlot(store: map<DeclId, Declaration>, elements: seq<ModuleElement>, target: Target, flags: Flags,
                          stack: seq<bool>, i: nat)
    requires Closed(store, elements)
    requires i < |target.generated| + |DeclarationIds(elements)|
    ensures var ids := DeclarationIds(elements);
      var base := |target.generated|;
      var r := GenerateClasses(store, elements, target, EmptyTable, flags, stack);
      && (i < base ==> r.target.generated[i] == target.generated[i])
      && (r.error.None? && base <= i && IsLast(ids, i - base) ==>
            r.target.generated[i] ==
              ClassStep(store, r.table, flags, Push(stack, false), ids[i - base], Skeleton(store[ids[i - base]].name)).decl)
      && (base <= i && !IsLast(ids, i - base) ==>
            r.target.generated[i] == Skeleton(store[ids[i - base]].name))
  {
    var ids := DeclarationIds(elements);
    if KeptSlot(ids, |target.generated|, i) {
      if GenerateClasses(store, elements, target, EmptyTable, flags, stack).error.None? {
        FreshClassRunKept(store, elements, target, flags, stack, i);
      }
    } else {
      FreshClassRunUntouched(store, elements, target, flags, stack, i);
      SkeletonAt(store, ids, ClassKind, target, i);
    }
  }

  /** After the first phase a declaration of the module maps to its new
      skeleton under the run's own shape and to null under the other shape,
      since the entry holds one form only. */
  lemma SkeletonTableMapping(ids: seq<DeclId>, kind: DeclKind, base: nat, table: MapTable, shape: bool, n: nat)
    requires ValidTable(table) && IsLast(ids, n)
    ensures MapDeclaration(SkeletonTable(ids, kind, base, table), shape, ids[n]) ==
      (if shape == (kind == InterfaceKind) then Some(Generated(kind, base + n)) else None)
  {
    SkeletonTableLookup(ids, kind, base, table, n);
    var m := SkeletonTable(ids, kind, base, table);
    var item := FormFor(kind, Generated(kind, base + n));
    assert Lookup(m, ids[n]) == Some(item);
    assert MapDeclaration(m, shape, ids[n]) == (if shape then item.interfaceForm else item.classForm);
  }

  /** Any other declaration maps as it did before the run. */
  lemma SkeletonTableMappingOthers(ids: seq<DeclId>, kind: DeclKind, base: nat, table: MapTable, shape: bool, k: DeclId)
    requires ValidTable(table) && k !in ids
    ensures MapDeclaration(SkeletonTable(ids, kind, base, table), shape, k) == MapDeclaration(table, shape, k)
  {
    SkeletonTableOthers(ids, kind, base, table, k);
  }

  /** In a class run a reference to a declaration of the module, rewritten
      under interface shape (as implemented interfaces are), loses its
      declaration: the entry has no interface form. */
  lemma ClassRunDropsInterfaceReferences(ids: seq<DeclId>, base: nat, table: MapTable, k: DeclId, generics: seq<TypeRef>)
    requires ValidTable(table) && k in ids
    ensures MapType(SkeletonTable(ids, ClassKind, base, table), true, Ref(TypeForm(DeclType(k)), generics)) ==
      Ref(TypeForm(NoType), MapTypeList(SkeletonTable(ids, ClassKind, base, table), true, generics))
  {
    var n := LastOccurrence(ids, k);
    SkeletonTableMapping(ids, ClassKind, base, table, true, n);
  }

  /** An interface run fails when the table it starts from already maps a
      declaration the run does not name to null under interface shape (its
      entry has no interface form), and that declaration has anything the
      interface loop must write. */
  lemma InterfaceRunFailsOnStaleEntry(store: map<DeclId, Declaration>, elements: seq<ModuleElement>, target: Target,
                                      table: MapTable, stack: seq<bool>, k: DeclId)
    requires Closed(store, elements)
    requires ValidTable(table) && EntriesWithin(store, Entries(table), |target.generated|)
    requires k !in DeclarationIds(elements) && k in store && InterfaceTouchesTarget(k, store[k])
    requires k in table.items && MapDeclaration(table, true, k).None?
    ensures GenerateInterfaces(store, elements, target, table, stack).error.Some?
  {
    var r := GenerateInterfaces(store, elements, target, table, stack);
    var ids := DeclarationIds(elements);
    SkeletonTableOthers(ids, InterfaceKind, |target.generated|, table, k);
    assert Lookup(r.table, k) == Lookup(table, k);
    var item := Lookup(r.table, k).value;
    var j := EntryOf(r.table, k);
    assert InterfaceFails(store, Entries(r.table)[j]);
  }

  /** One generator, two runs: after a class run over a declaration, an
      interface run over a module that does not name it fails on the class
      run's entry whenever that declaration has anything to write, because
      the entry the table keeps has no interface form. */
  lemma ClassRunThenInterfaceRun(store: map<DeclId, Declaration>, first: seq<ModuleElement>, second: seq<ModuleElement>,
                                 target: Target, table: MapTable, flags: Flags, stack: seq<bool>, k: DeclId)
    requires Closed(store, first) && Closed(store, second)
    requires ValidTable(table) && EntriesWithin(store, Entries(table), |target.generated|)
    requires k in DeclarationIds(first) && k !in DeclarationIds(second)
    requires InterfaceTouchesTarget(k, store[k])
    ensures var r1 := GenerateClasses(store, first, target, table, flags, stack);
      GenerateInterfaces(store, second, r1.target, r1.table, stack).error.Some?
  {
    var ids1 := DeclarationIds(first);
    SkeletonTableKeys(ids1, ClassKind, |target.generated|, table, k);
    var n := LastOccurrence(ids1, k);
    SkeletonTableMapping(ids1, ClassKind, |target.generated|, table, true, n);
    var r1 := GenerateClasses(store, first, target, table, flags, stack);
    InterfaceRunFailsOnStaleEntry(store, second, r1.target, r1.table, stack, k);
  }
}
