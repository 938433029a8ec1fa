/**
 The per-declaration part of the Knockout generator: the shape stack,
 `GenerateObservableBase`, `MakeObservableProperty`, and the three ways a
 generated declaration is filled from its source
 (`GenerateObservableInterface`, `GenerateObservableClassFromInterface`,
 `GenerateObservableClassFromClass`).
 */
module Generator {
  import opened Model
  import opened Mapping
  import opened Observable
  import opened FromJs

  /** `Enable_JsConversion_Functions` and `JsConversion_Function_PropertyExistenceCheck`. */
  datatype Flags = Flags(enableJsConversionFunctions: bool, propertyExistenceCheck: bool)

  // The shape stack `_interfaceMapping`: true is interface shape, false is
  // class shape; the top is the last element.

  /** `BeginInterfaceMapping(interfaceShape)`: the shape goes on top and
      the stack below it is kept. */
  function Push(stack: seq<bool>, interfaceShape: bool): (s: seq<bool>)
    ensures |s| == |stack| + 1 && s[..|stack|] == stack
    ensures Top(s) == interfaceShape
  {
    stack + [interfaceShape]
  }

  /** `EndInterfaceMapping()`: pushing the old top back onto the popped
      stack restores it. */
  function Pop(stack: seq<bool>): (s: seq<bool>)
    requires |stack| > 0
    ensures |s| == |stack| - 1
    ensures Push(s, Top(stack)) == stack
  {
    stack[..|stack| - 1]
  }

  /** `_interfaceMapping.Peek()`: the shape pushed last and not yet popped. */
  function Top(stack: seq<bool>): (top: bool)
    requires |stack| > 0
    ensures top == stack[|stack| - 1]
  {
    stack[|stack| - 1]
  }

  /** A pop undoes a push, and the top after a push is what was pushed: the
      discipline every `try`/`finally` pair relies on to give the caller its
      stack back. */
  lemma PushPop(stack: seq<bool>, interfaceShape: bool)
    ensures Top(Push(stack, interfaceShape)) == interfaceShape
    ensures Pop(Push(stack, interfaceShape)) == stack
    ensures |stack| > 0 ==> Push(Pop(stack), Top(stack)) == stack
  {
  }

  /** `MapType` on every reference of a list between one push of `shape` and
      its pop, as the `try`/`finally` blocks do. */
  function MapTypesUnder(table: MapTable, stack: seq<bool>, shape: bool, rs: seq<TypeRef>): (r: (seq<TypeRef>, seq<bool>))
    ensures r.0 == MapTypeList(table, shape, rs)
    ensures r.1 == stack
  {
    var inner := Push(stack, shape);
    var mapped := MapTypeList(table, Top(inner), rs);
    assert Pop(inner) == stack;
    (mapped, Pop(inner))
  }

  /** `MakeObservableProperty`: the wrapper chosen by the shape on top. */
  function MakeObservableProperty(interfaceShape: bool, p: PropertyMember): (q: PropertyMember)
    ensures q.name == p.name && q.accessibility == p.accessibility
    ensures interfaceShape ==> q == MakeObservableInterfaceProperty(p) && q.initialization.None?
    ensures !interfaceShape ==> q == MakeObservableInitialization(p) && q.memberType == NullRef && q.initialization.Some?
  {
    if interfaceShape then MakeObservableInterfaceProperty(p) else MakeObservableInitialization(p)
  }

  /** One source property as `GenerateObservableBase` copies it: same name and
      accessibility, initializer and type rewritten, then wrapped. */
  function CopyProperty(table: MapTable, interfaceShape: bool, p: PropertyMember): PropertyMember
  {
    var copy := PropertyMember(p.name, p.accessibility,
      MapType(table, interfaceShape, p.memberType),
      MapInitialization(table, interfaceShape, p.initialization));
    MakeObservableProperty(interfaceShape, copy)
  }

  function CopyGeneric(table: MapTable, interfaceShape: bool, g: GenericParameter): GenericParameter
  {
    GenericParameter(g.name, MapType(table, interfaceShape, g.constraint))
  }

  /** Every property has the interface-shape form: no initializer. */
  predicate ContractOnly(d: Declaration)
  {
    forall m :: m in d.members && m.Property? ==> m.prop.initialization.None?
  }

  /** Every property has the class-shape form: no type, an initializer. */
  predicate ClassShaped(d: Declaration)
  {
    forall m :: m in d.members && m.Property? ==>
      m.prop.memberType == NullRef && m.prop.initialization.Some?
  }

  /** The copied and wrapped source properties, in order. */
  function CopyProperties(table: MapTable, interfaceShape: bool, sp: seq<PropertyMember>): (ps: seq<PropertyMember>)
    ensures |ps| == |sp|
    ensures forall i :: 0 <= i < |sp| ==> ps[i] == CopyProperty(table, interfaceShape, sp[i])
    ensures forall i :: 0 <= i < |sp| ==> ps[i].name == sp[i].name && ps[i].accessibility == sp[i].accessibility
  {
    seq(|sp|, i requires 0 <= i < |sp| => CopyProperty(table, interfaceShape, sp[i]))
  }

  /** The copied source generic parameters, in order. */
  function CopyGenerics(table: MapTable, interfaceShape: bool, gs: seq<GenericParameter>): (cs: seq<GenericParameter>)
    ensures |cs| == |gs|
    ensures forall i :: 0 <= i < |gs| ==>
      cs[i].name == gs[i].name && cs[i].constraint == MapType(table, interfaceShape, gs[i].constraint)
  {
    seq(|gs|, i requires 0 <= i < |gs| => CopyGeneric(table, interfaceShape, gs[i]))
  }

  /** `GenerateObservableBase`: appends the source's generic parameters (same
      names and order, constraints rewritten) and its property members (same
      names, accessibility and order, wrapped for the current shape); function
      members are not copied, and nothing else of the target changes. */
  function GenerateObservableBase(source: Declaration, target: Declaration, table: MapTable, interfaceShape: bool)
    : (d: Declaration)
    ensures d == target.(genericParameters := d.genericParameters, members := d.members)
    ensures d.genericParameters == target.genericParameters + CopyGenerics(table, interfaceShape, source.genericParameters)
    ensures d.members == target.members + AsMembers(CopyProperties(table, interfaceShape, Properties(source.members)))
    ensures Properties(d.members) == Properties(target.members) + CopyProperties(table, interfaceShape, Properties(source.members))
  {
    var copies := CopyProperties(table, interfaceShape, Properties(source.members));
    PropertiesAppend(target.members, AsMembers(copies));
    PropertiesOfAsMembers(copies);
    target.(genericParameters := target.genericParameters + CopyGenerics(table, interfaceShape, source.genericParameters),
            members := target.members + AsMembers(copies))
  }

  /** The copy adds no function member and gives every copied property the
      form of the current shape, so a target whose properties all have that
      form keeps it. */
  lemma BaseKeepsShape(source: Declaration, target: Declaration, table: MapTable, interfaceShape: bool)
    ensures var d := GenerateObservableBase(source, target, table, interfaceShape);
      && (forall m :: m in d.members && m.Function? ==> m in target.members)
      && (interfaceShape && ContractOnly(target) ==> ContractOnly(d))
      && (!interfaceShape && ClassShaped(target) ==> ClassShaped(d))
  {
    var d := GenerateObservableBase(source, target, table, interfaceShape);
    var copies := AsMembers(CopyProperties(table, interfaceShape, Properties(source.members)));
    forall m | m in d.members && m !in target.members
      ensures m.Property? && (interfaceShape ==> m.prop.initialization.None?)
      ensures !interfaceShape ==> m.prop.memberType == NullRef && m.prop.initialization.Some?
    {
      assert m in copies;
    }
  }

  /** `GenerateObservableInterface`: the generated interface extends the
      rewritten `GetExtends()` list and, for a source class, the rewritten
      implemented interfaces; then the base copy. */
  function GenerateObservableInterface(sourceId: DeclId, source: Declaration, target: Declaration, table: MapTable, interfaceShape: bool)
    : (d: Declaration)
    ensures d.name == target.name && d.baseClass == target.baseClass
    ensures d.extendsTypes == target.extendsTypes + MapTypeList(table, interfaceShape, source.declaredExtends)
      + (if sourceId.kind == ClassKind then MapTypeList(table, interfaceShape, source.implementations) else [])
    ensures d == target.(extendsTypes := d.extendsTypes, genericParameters := d.genericParameters, members := d.members)
    ensures d.genericParameters == target.genericParameters + CopyGenerics(table, interfaceShape, source.genericParameters)
    ensures d.members == target.members + AsMembers(CopyProperties(table, interfaceShape, Properties(source.members)))
    ensures Properties(d.members) == Properties(target.members) + CopyProperties(table, interfaceShape, Properties(source.members))
    ensures interfaceShape && ContractOnly(target) ==> ContractOnly(d)
  {
    var extended := target.extendsTypes + MapTypeList(table, interfaceShape, source.declaredExtends)
      + (if sourceId.kind == ClassKind then MapTypeList(table, interfaceShape, source.implementations) else []);
    BaseKeepsShape(source, target.(extendsTypes := extended), table, interfaceShape);
    GenerateObservableBase(source, target.(extendsTypes := extended), table, interfaceShape)
  }

  /** The state a class-generation step leaves: the target as far as it got,
      the exception it ended with, and the shape stack. */
  datatype Step = Step(decl: Declaration, error: Option<GenError>, stack: seq<bool>)

  /** `Any` reaches a reference to a class before any null entry. */
  predicate ClassFirst(items: seq<TypeRef>)
  {
    exists i :: 0 <= i < |items| && RefersToClass(items[i]) && forall j :: 0 <= j < i ==> items[j].Ref?
  }

  /** `Any` reaches a null entry before any reference to a class. */
  predicate NullFirst(items: seq<TypeRef>)
  {
    exists i :: 0 <= i < |items| && items[i] == NullRef && forall j :: 0 <= j < i ==> !RefersToClass(items[j])
  }

  /** A class reference comes first exactly when the head is not null and
      either refers to a class or is followed by a list where one does. */
  lemma ClassFirstStep(items: seq<TypeRef>)
    requires |items| > 0
    ensures ClassFirst(items) <==> items[0].Ref? && (RefersToClass(items[0]) || ClassFirst(items[1..]))
  {
    var rest := items[1..];
    if ClassFirst(items) {
      var i :| 0 <= i < |items| && RefersToClass(items[i]) && forall j :: 0 <= j < i ==> items[j].Ref?;
      if i > 0 && !RefersToClass(items[0]) {
        assert RefersToClass(rest[i - 1]) && forall j :: 0 <= j < i - 1 ==> rest[j] == items[j + 1];
      }
    }
    if items[0].Ref? && ClassFirst(rest) {
      var i :| 0 <= i < |rest| && RefersToClass(rest[i]) && forall j :: 0 <= j < i ==> rest[j].Ref?;
      assert RefersToClass(items[i + 1]) && forall j :: 1 <= j < i + 1 ==> items[j] == rest[j - 1];
    }
  }

  /** A null entry comes first exactly when the head refers to no class and
      either is null or is followed by a list where one comes first. */
  lemma NullFirstStep(items: seq<TypeRef>)
    requires |items| > 0
    ensures NullFirst(items) <==> !RefersToClass(items[0]) && (items[0] == NullRef || NullFirst(items[1..]))
  {
    var rest := items[1..];
    if NullFirst(items) {
      var i :| 0 <= i < |items| && items[i] == NullRef && forall j :: 0 <= j < i ==> !RefersToClass(items[j]);
      if i > 0 && items[0] != NullRef {
        assert rest[i - 1] == NullRef && forall j :: 0 <= j < i - 1 ==> rest[j] == items[j + 1];
      }
    }
    if !RefersToClass(items[0]) && NullFirst(rest) {
      var i :| 0 <= i < |rest| && rest[i] == NullRef && forall j :: 0 <= j < i ==> !RefersToClass(rest[j]);
      assert items[i + 1] == NullRef && forall j :: 1 <= j < i + 1 ==> items[j] == rest[j - 1];
    }
  }

  /** Every entry is a non-null reference to no class exactly when the head
      is and every entry of the rest is. */
  lemma PlainStep(items: seq<TypeRef>)
    requires |items| > 0
    ensures (forall i :: 0 <= i < |items| ==> items[i].Ref? && !RefersToClass(items[i])) <==>
      && items[0].Ref? && !RefersToClass(items[0])
      && forall i :: 0 <= i < |items[1..]| ==> items[1..][i].Ref? && !RefersToClass(items[1..][i])
  {
    assert forall i :: 1 <= i < |items| ==> items[i] == items[1..][i - 1];
  }

  /** The check `src.ExtendsTypes.Any(t => t.ReferencedType is ClassType)`
      and the `throw` it guards, on the extended types of interface `name`.
      `Any` visits the list in order and stops at the first reference to a
      class, which is rejected; a null entry it reaches before that makes the
      lambda dereference null. */
  function ExtendsFault(name: string, items: seq<TypeRef>): (e: Option<GenError>)
    ensures e.None? <==> forall i :: 0 <= i < |items| ==> items[i].Ref? && !RefersToClass(items[i])
    ensures e == Some(InterfaceExtendsClass(name)) <==> ClassFirst(items)
    ensures e == Some(NullExtendedType(name)) <==> NullFirst(items)
  {
    if |items| == 0 then None
    else
      var rest := ExtendsFault(name, items[1..]);
      PlainStep(items);
      ClassFirstStep(items);
      NullFirstStep(items);
      if items[0] == NullRef then
        assert !RefersToClass(items[0]);
        Some(NullExtendedType(name))
      else if RefersToClass(items[0]) then Some(InterfaceExtendsClass(name))
      else rest
  }

  /** An interface source whose extended types a class run rejects. */
  predicate BadExtends(source: Declaration)
  {
    ExtendsFault(source.name, source.extendsTypes).Some?
  }

  /** `t.ReferencedType is ClassType` */
  predicate RefersToClass(t: TypeRef)
  {
    ReferencedType(t).DeclType? && ReferencedType(t).decl.kind == ClassKind
  }

  /** `t.ReferencedType is InterfaceType` */
  predicate RefersToInterface(t: TypeRef)
  {
    ReferencedType(t).DeclType? && ReferencedType(t).decl.kind == InterfaceKind
  }

  /** `MapType` on one reference between a push of `shape` and its pop. */
  function MapTypeUnder(table: MapTable, stack: seq<bool>, shape: bool, r: TypeRef): (m: (TypeRef, seq<bool>))
    ensures m.0 == MapType(table, shape, r)
    ensures m.1 == stack
  {
    var inner := Push(stack, shape);
    assert Pop(inner) == stack;
    (MapType(table, Top(inner), r), Pop(inner))
  }

  /** The loop of `GenerateObservableClassFromInterface` over the source's
      extended types: one that refers to an interface is rewritten under
      interface shape, in its own push and pop; any other under the current
      shape. The loop runs only after `Any` has dereferenced every entry, so
      none is null. */
  function ImplementationsFromExtends(table: MapTable, stack: seq<bool>, items: seq<TypeRef>): (r: (seq<TypeRef>, seq<bool>))
    requires |stack| > 0
    requires forall i :: 0 <= i < |items| ==> items[i].Ref?
    ensures r.1 == stack
    ensures |r.0| == |items|
    ensures forall i :: 0 <= i < |items| ==>
      r.0[i] == MapType(table, RefersToInterface(items[i]) || Top(stack), items[i])
  {
    if |items| == 0 then ([], stack)
    else
      var first :=
        if RefersToInterface(items[0]) then MapTypeUnder(table, stack, true, items[0])
        else (MapType(table, Top(stack), items[0]), stack);
      var rest := ImplementationsFromExtends(table, first.1, items[1..]);
      assert forall i :: 1 <= i < |items| ==> items[i] == items[1..][i - 1];
      ([first.0] + rest.0, rest.1)
  }

  /** A well-formed `fromJS` member for a class with or without a base class. */
  predicate IsFromJs(f: FunctionMember, hasBaseClass: bool)
  {
    && f.name == "fromJS" && f.parameters == ["obj"]
    && |f.body| > 0 && f.body[|f.body| - 1] == Text("return this;")
    && (f.body[0] == Text("super.fromJS(obj);\n") <==> hasBaseClass)
  }

  /** Every function member of `d` is a `fromJS` that fits `d`'s base class. */
  predicate OnlyFromJsFunctions(d: Declaration)
  {
    forall m :: m in d.members && m.Function? ==> IsFromJs(m.func, d.baseClass != NullRef)
  }

  /** `if (Enable_JsConversion_Functions) AddFromJsFunction(src, target);` */
  function AddFromJs(source: Declaration, target: Declaration, flags: Flags, stack: seq<bool>): (step: Step)
    ensures step.stack == stack
    ensures step.decl == target.(members := step.decl.members)
    ensures step.error.Some? <==>
      flags.enableJsConversionFunctions &&
      exists p :: p in Properties(target.members) && FindProperty(Properties(source.members), p.name).None?
    ensures step.error.Some? ==> step.decl == target
    ensures step.error.None? && !flags.enableJsConversionFunctions ==> step.decl == target
    ensures step.error.None? && flags.enableJsConversionFunctions ==>
      var built := FromJsFunction(source, target, flags.propertyExistenceCheck);
      built.Success? && step.decl.members == target.members + [Function(built.value)]
    ensures Properties(step.decl.members) == Properties(target.members)
    ensures OnlyFromJsFunctions(target) ==> OnlyFromJsFunctions(step.decl)
  {
    if !flags.enableJsConversionFunctions then Step(target, None, stack)
    else
      match FromJsFunction(source, target, flags.propertyExistenceCheck)
      case Failure(e) => Step(target, Some(e), stack)
      case Success(f) =>
        PropertiesAppend(target.members, [Function(f)]);
        assert Properties([Function(f)]) == [];
        Step(target.(members := target.members + [Function(f)]), None, stack)
  }

  /** Copying a source's properties into a target with none of its own leaves
      a target whose every property has a source property of the same name,
      so the `First` lookup of `fromJS` cannot fail there. */
  lemma CopiedPropertiesHaveSources(source: Declaration, target: Declaration, table: MapTable, interfaceShape: bool)
    requires Properties(target.members) == []
    ensures var d := GenerateObservableBase(source, target, table, interfaceShape);
      forall p :: p in Properties(d.members) ==> FindProperty(Properties(source.members), p.name).Some?
  {
    var d := GenerateObservableBase(source, target, table, interfaceShape);
    var sp := Properties(source.members);
    var copies := CopyProperties(table, interfaceShape, sp);
    assert Properties(d.members) == copies;
    forall p | p in copies
      ensures FindProperty(sp, p.name).Some?
    {
      var i :| 0 <= i < |copies| && copies[i] == p;
      assert copies[i].name == sp[i].name;
    }
  }

  /** What the base copy of `source` under `shape` and the optional
      `fromJS` leave in a target that held `t`: the copied generic
      parameters after `t`'s; an exception exactly when `fromJS` is enabled
      and some property of the copied target has no source property of its
      name; then, as when `fromJS` is disabled, `t`'s members followed by the
      copied properties; otherwise those followed by the `fromJS` that
      `FromJsFunction` builds for the copied target. */
  ghost predicate CopiedWithFromJs(source: Declaration, t: Declaration, table: MapTable, shape: bool, flags: Flags,
                                   d: Declaration, error: Option<GenError>)
  {
    var copies := CopyProperties(table, shape, Properties(source.members));
    && d.genericParameters == t.genericParameters + CopyGenerics(table, shape, source.genericParameters)
    && (error.Some? <==>
          (flags.enableJsConversionFunctions &&
           exists p :: p in Properties(t.members) + copies && FindProperty(Properties(source.members), p.name).None?))
    && (error.Some? || !flags.enableJsConversionFunctions ==> d.members == t.members + AsMembers(copies))
    && (error.None? && flags.enableJsConversionFunctions ==>
          var built := FromJsFunction(source, t.(members := t.members + AsMembers(copies)), flags.propertyExistenceCheck);
          built.Success? && d.members == t.members + AsMembers(copies) + [Function(built.value)])
  }

  /** `GenerateObservableClassFromInterface`. A source interface whose
      extended types `Any` rejects is rejected before the target is touched;
      otherwise the target implements every extended type (rewritten under
      interface shape when it refers to an interface), gets the base copy
      under the current shape and, when enabled, a `fromJS`. */
  function GenerateObservableClassFromInterface(source: Declaration, target: Declaration, table: MapTable, flags: Flags, stack: seq<bool>)
    : (step: Step)
    requires |stack| > 0
    ensures step.stack == stack
    ensures step.decl.name == target.name && step.decl.baseClass == target.baseClass
    ensures BadExtends(source) ==> step == Step(target, ExtendsFault(source.name, source.extendsTypes), stack)
    ensures !BadExtends(source) ==>
      && step.decl == target.(implementations := step.decl.implementations,
                              genericParameters := step.decl.genericParameters, members := step.decl.members)
      && |step.decl.implementations| == |target.implementations| + |source.extendsTypes|
      && step.decl.implementations[..|target.implementations|] == target.implementations
      && (forall i :: 0 <= i < |source.extendsTypes| ==>
        step.decl.implementations[|target.implementations| + i] ==
          MapType(table, RefersToInterface(source.extendsTypes[i]) || Top(stack), source.extendsTypes[i]))
      && step.decl.genericParameters == target.genericParameters + CopyGenerics(table, Top(stack), source.genericParameters)
      && Properties(step.decl.members) == Properties(target.members) + CopyProperties(table, Top(stack), Properties(source.members))
    ensures !BadExtends(source) && Properties(target.members) == [] ==> step.error.None?
    ensures step.error.Some? ==> BadExtends(source) || Properties(target.members) != []
    ensures !Top(stack) && ClassShaped(target) ==> ClassShaped(step.decl)
    ensures OnlyFromJsFunctions(target) ==> OnlyFromJsFunctions(step.decl)
  {
    var fault := ExtendsFault(source.name, source.extendsTypes);
    if fault.Some? then Step(target, fault, stack)
    else
      var impls := ImplementationsFromExtends(table, stack, source.extendsTypes);
      var t1 := target.(implementations := target.implementations + impls.0);
      var t2 := GenerateObservableBase(source, t1, table, Top(impls.1));
      BaseKeepsShape(source, t1, table, Top(impls.1));
      if Properties(target.members) == [] then
        CopiedPropertiesHaveSources(source, t1, table, Top(impls.1));
        AddFromJs(source, t2, flags, impls.1)
      else
        AddFromJs(source, t2, flags, impls.1)
  }

  /** `GenerateObservableClassFromClass`: the target implements the source's
      implemented interfaces, rewritten under interface shape in one push and
      pop; then the base copy under the current shape and, when enabled, a
      `fromJS`. */
  function GenerateObservableClassFromClass(source: Declaration, target: Declaration, table: MapTable, flags: Flags, stack: seq<bool>)
    : (step: Step)
    requires |stack| > 0
    ensures step.stack == stack
    ensures step.decl == target.(implementations := step.decl.implementations,
                                 genericParameters := step.decl.genericParameters, members := step.decl.members)
    ensures step.decl.implementations == target.implementations + MapTypeList(table, true, source.implementations)
    ensures Properties(step.decl.members) == Properties(target.members) + CopyProperties(table, Top(stack), Properties(source.members))
    ensures step.decl.genericParameters == target.genericParameters + CopyGenerics(table, Top(stack), source.genericParameters)
    ensures Properties(target.members) == [] ==> step.error.None?
    ensures !Top(stack) && ClassShaped(target) ==> ClassShaped(step.decl)
    ensures OnlyFromJsFunctions(target) ==> OnlyFromJsFunctions(step.decl)
  {
    var impls := MapTypesUnder(table, stack, true, source.implementations);
    var t1 := target.(implementations := target.implementations + impls.0);
    var t2 := GenerateObservableBase(source, t1, table, Top(impls.1));
    BaseKeepsShape(source, t1, table, Top(impls.1));
    if Properties(target.members) == [] then
      CopiedPropertiesHaveSources(source, t1, table, Top(impls.1));
      AddFromJs(source, t2, flags, impls.1)
    else
      AddFromJs(source, t2, flags, impls.1)
  }

  /** The members and the exception `GenerateObservableClassFromInterface`
      leaves after the base copy and the optional `fromJS`. */
  lemma ClassFromInterfaceOutcome(source: Declaration, target: Declaration, table: MapTable, flags: Flags, stack: seq<bool>)
    requires |stack| > 0
    ensures var step := GenerateObservableClassFromInterface(source, target, table, flags, stack);
      !BadExtends(source) ==> CopiedWithFromJs(source, target, table, Top(stack), flags, step.decl, step.error)
  {
    if !BadExtends(source) {
      var impls := ImplementationsFromExtends(table, stack, source.extendsTypes);
      var t1 := target.(implementations := target.implementations + impls.0);
      var copies := CopyProperties(table, Top(stack), Properties(source.members));
      FromJsFunctionFrame(source, GenerateObservableBase(source, t1, table, Top(stack)),
                          target.(members := target.members + AsMembers(copies)), flags.propertyExistenceCheck);
    }
  }

  /** The members and the exception `GenerateObservableClassFromClass`
      leaves after the base copy and the optional `fromJS`. */
  lemma ClassFromClassOutcome(source: Declaration, target: Declaration, table: MapTable, flags: Flags, stack: seq<bool>)
    requires |stack| > 0
    ensures var step := GenerateObservableClassFromClass(source, target, table, flags, stack);
      CopiedWithFromJs(source, target, table, Top(stack), flags, step.decl, step.error)
  {
    var impls := MapTypesUnder(table, stack, true, source.implementations);
    var t1 := target.(implementations := target.implementations + impls.0);
    var copies := CopyProperties(table, Top(stack), Properties(source.members));
    FromJsFunctionFrame(source, GenerateObservableBase(source, t1, table, Top(stack)),
                        target.(members := target.members + AsMembers(copies)), flags.propertyExistenceCheck);
  }

  /** `AddFromJsFunction` reads only the target's members and base class. */
  lemma FromJsFunctionFrame(source: Declaration, a: Declaration, b: Declaration, existenceCheck: bool)
    requires a.members == b.members && a.baseClass == b.baseClass
    ensures FromJsFunction(source, a, existenceCheck) == FromJsFunction(source, b, existenceCheck)
  {
  }
}
