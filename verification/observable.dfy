/**
 The property wrappers of the Knockout generator: the rules that turn a
 plain property into a Knockout observable, in class shape (an initializer
 `ko.observable…` and no type) and in interface shape (a `KnockoutObservable…`
 type and no initializer), and the older static pass that rewrites a whole
 module in place.
 */
module Observable {
  import opened Model

  /** The element type of an array reference. The C# code throws
      "Not array type" otherwise; every caller checks first. */
  function ExtractArrayElement(r: TypeRef): (element: TypeRef)
    requires IsArray(r)
    ensures ReferencedType(r) == ArrayType(element)
    ensures element < r
  {
    r.form.referenced.elementType
  }

  /** Class-shape wrapper `MakeObservableInitialization`: the type is
      dropped and the initializer says everything. Reading the initializer
      back gives the original initializer statements when there were some,
      else the array's element, else the declared type (null included), so
      the wrapper loses nothing. */
  function MakeObservableInitialization(p: PropertyMember): (q: PropertyMember)
    ensures q.name == p.name && q.accessibility == p.accessibility
    ensures q.memberType == NullRef && q.initialization.Some?
    ensures ReadInitializer(q.initialization.value) == Some(ClassObservation(p))
  {
    var init :=
      if p.initialization.Some? then
        [Text("ko.observable"), Text("(")] + p.initialization.value + [Text(")")]
      else if IsArray(p.memberType) then
        [Text("ko.observableArray<"), TypeStatement(ExtractArrayElement(p.memberType)), Text(">()")]
      else
        [Text("ko.observable<"), TypeStatement(p.memberType), Text(">()")];
    if p.initialization.Some? then
      assert init[2..|init| - 1] == p.initialization.value;
      p.(memberType := NullRef, initialization := Some(init))
    else
      assert Text("ko.observableArray<") != Text("ko.observable");
      assert Text("ko.observable<") != Text("ko.observable");
      assert Text("ko.observable<") != Text("ko.observableArray<");
      p.(memberType := NullRef, initialization := Some(init))
  }

  /** `new TypescriptTypeReference(name) { GenericParameters = { argument } }` */
  function Generic(name: string, argument: TypeRef): TypeRef
  {
    Ref(NameForm(name), [argument])
  }

  /** Interface-shape wrapper `MakeObservableInterfaceProperty`: the
      initializer is dropped and the type says everything. Reading the type
      back gives the array's element for an array and the declared type when
      that has a referenced type; a type without one, a name such as `string`
      included, becomes the plain name `KnockoutObservable<any>`. */
  function MakeObservableInterfaceProperty(p: PropertyMember): (q: PropertyMember)
    ensures q.name == p.name && q.accessibility == p.accessibility
    ensures q.initialization.None?
    ensures ReadObservableType(q.memberType) ==
      if ReferencedType(p.memberType) != NoType then Some(TypeObservation(p.memberType)) else Some(ObservedAny)
  {
    var t := p.memberType;
    assert "KnockoutObservable" != "KnockoutObservableArray";
    assert "KnockoutObservable<any>" != "KnockoutObservableArray";
    assert "KnockoutObservable<any>" != "KnockoutObservable";
    var t' :=
      if ReferencedType(t) != NoType then
        if IsArray(t) then Generic("KnockoutObservableArray", ExtractArrayElement(t))
        else Generic("KnockoutObservable", t)
      else Ref(NameForm("KnockoutObservable<any>"), []);
    p.(initialization := None, memberType := t')
  }

  /** What a class-shape initializer observes: the original initializer, or a
      default array or value observable of a type. */
  datatype ObservedInitializer =
    | WrappedInitializer(statements: seq<RawStatement>)
    | DefaultArray(element: TypeRef)
    | DefaultValue(valueType: TypeRef)

  /** Reads a class-shape initializer back. */
  function ReadInitializer(init: seq<RawStatement>): Option<ObservedInitializer>
  {
    if |init| >= 3 && init[0] == Text("ko.observable") && init[1] == Text("(") && init[|init| - 1] == Text(")") then
      Some(WrappedInitializer(init[2..|init| - 1]))
    else if |init| == 3 && init[0] == Text("ko.observableArray<") && init[1].TypeStatement? && init[2] == Text(">()") then
      Some(DefaultArray(init[1].typeReference))
    else if |init| == 3 && init[0] == Text("ko.observable<") && init[1].TypeStatement? && init[2] == Text(">()") then
      Some(DefaultValue(init[1].typeReference))
    else None
  }

  /** What an interface-shape property type observes. */
  datatype ObservedType = ObservedArray(element: TypeRef) | ObservedValue(valueType: TypeRef) | ObservedAny

  /** Reads an interface-shape property type back. */
  function ReadObservableType(t: TypeRef): Option<ObservedType>
  {
    if t.Ref? && t.form.NameForm? then
      if t.form.typeName == "KnockoutObservableArray" && |t.genericParameters| == 1 then
        Some(ObservedArray(t.genericParameters[0]))
      else if t.form.typeName == "KnockoutObservable" && |t.genericParameters| == 1 then
        Some(ObservedValue(t.genericParameters[0]))
      else if t.form.typeName == "KnockoutObservable<any>" && |t.genericParameters| == 0 then
        Some(ObservedAny)
      else None
    else None
  }

  /** What a class-shape initializer should observe of `p`: its
      initializer when it has one, else a default observable of the array's
      element or of the declared type. */
  function ClassObservation(p: PropertyMember): ObservedInitializer
  {
    if p.initialization.Some? then WrappedInitializer(p.initialization.value)
    else if IsArray(p.memberType) then DefaultArray(ExtractArrayElement(p.memberType))
    else DefaultValue(p.memberType)
  }

  /** What an interface-shape type should observe of a declared type `t`:
      the element of an array, else `t` itself. */
  function TypeObservation(t: TypeRef): ObservedType
  {
    if IsArray(t) then ObservedArray(ExtractArrayElement(t)) else ObservedValue(t)
  }

  /** The two shapes observe the same type when the property has no
      initializer and a referenced type; when the declared type has no
      referenced type (a plain name, say) the class shape keeps it and the
      interface shape says `any`. */
  lemma ShapesAgreeOnObservedType(p: PropertyMember)
    requires p.initialization.None?
    ensures ReferencedType(p.memberType) != NoType ==>
      match (ReadInitializer(MakeObservableInitialization(p).initialization.value),
             ReadObservableType(MakeObservableInterfaceProperty(p).memberType))
      case (Some(DefaultArray(e)), Some(ObservedArray(e'))) => e == e'
      case (Some(DefaultValue(t)), Some(ObservedValue(t'))) => t == t'
      case _ => false
    ensures ReferencedType(p.memberType) == NoType ==>
      && ReadInitializer(MakeObservableInitialization(p).initialization.value) == Some(DefaultValue(p.memberType))
      && ReadObservableType(MakeObservableInterfaceProperty(p).memberType) == Some(ObservedAny)
  {
  }

  /** The per-property rule of the static `MakeObservable(InterfaceType)`:
      like the interface shape, but the initializer is kept and a type
      without a referenced type is wrapped as it is, null included. */
  function MakeObservableStaticInterfaceProperty(p: PropertyMember): (q: PropertyMember)
    ensures q.name == p.name && q.accessibility == p.accessibility
    ensures q.initialization == p.initialization
    ensures ReadObservableType(q.memberType) == Some(TypeObservation(p.memberType))
  {
    assert "KnockoutObservable" != "KnockoutObservableArray";
    if IsArray(p.memberType) then
      p.(memberType := Generic("KnockoutObservableArray", ExtractArrayElement(p.memberType)))
    else
      p.(memberType := Generic("KnockoutObservable", p.memberType))
  }

  /** The static and the shaped interface rules give the same type exactly
      when the declared type has a referenced type. */
  lemma StaticInterfaceRuleAgreesWithShaped(p: PropertyMember)
    ensures ReferencedType(p.memberType) != NoType ==>
      MakeObservableStaticInterfaceProperty(p).memberType == MakeObservableInterfaceProperty(p).memberType
    ensures ReferencedType(p.memberType) == NoType ==>
      && MakeObservableStaticInterfaceProperty(p).memberType == Generic("KnockoutObservable", p.memberType)
      && MakeObservableStaticInterfaceProperty(p).memberType != MakeObservableInterfaceProperty(p).memberType
  {
    assert "KnockoutObservable" != "KnockoutObservable<any>";
  }

  /** The member loop of the static `MakeObservable(ClassType)` (class rule)
      and `MakeObservable(InterfaceType)` (static interface rule): every
      property member is rewritten in place and every other member is kept. */
  function WrapProperties(members: seq<Member>, interfaceRule: bool): (ms: seq<Member>)
    ensures |ms| == |members|
    ensures forall i :: 0 <= i < |members| ==>
      && ms[i].Property? == members[i].Property?
      && (members[i].Function? ==> ms[i] == members[i])
      && (members[i].Property? ==>
           ms[i].prop.name == members[i].prop.name && ms[i].prop.accessibility == members[i].prop.accessibility)
    ensures !interfaceRule ==> forall i :: 0 <= i < |members| && members[i].Property? ==>
      && ms[i].prop.memberType == NullRef && ms[i].prop.initialization.Some?
      && ReadInitializer(ms[i].prop.initialization.value) == Some(ClassObservation(members[i].prop))
    ensures interfaceRule ==> forall i :: 0 <= i < |members| && members[i].Property? ==>
      && ms[i].prop.initialization == members[i].prop.initialization
      && ReadObservableType(ms[i].prop.memberType) == Some(TypeObservation(members[i].prop.memberType))
  {
    seq(|members|, i requires 0 <= i < |members| =>
      match members[i]
      case Function(_) => members[i]
      case Property(p) =>
        if interfaceRule then Property(MakeObservableStaticInterfaceProperty(p))
        else Property(MakeObservableInitialization(p)))
  }

  /** The static `MakeObservable(ClassType)` / `MakeObservable(InterfaceType)`
      on one declaration; any other kind of declaration is left alone. */
  function MakeObservableDeclaration(kind: DeclKind, d: Declaration): (d': Declaration)
    ensures d'.name == d.name && |d'.members| == |d.members|
    ensures d' == d.(members := d'.members)
    ensures kind == OtherKind ==> d' == d
    ensures kind != OtherKind ==> d'.members == WrapProperties(d.members, kind == InterfaceKind)
  {
    match kind
    case ClassKind => d.(members := WrapProperties(d.members, false))
    case InterfaceKind => d.(members := WrapProperties(d.members, true))
    case OtherKind => d
  }

  /** The static `MakeObservable(TypescriptModule)`: visits the module's
      declaration elements in order and rewrites each declaration in the
      store, once per element that names it. */
  function MakeObservableModule(store: map<DeclId, Declaration>, ids: seq<DeclId>): (store': map<DeclId, Declaration>)
    requires forall id :: id in ids ==> id in store
    ensures store'.Keys == store.Keys
    ensures forall id :: id in store && id !in ids ==> store'[id] == store[id]
    ensures forall id :: id in store ==> store'[id].name == store[id].name
  {
    if |ids| == 0 then store
    else
      var id := ids[0];
      MakeObservableModule(store[id := MakeObservableDeclaration(id.kind, store[id])], ids[1..])
  }

  /** A declaration named by exactly one element is rewritten exactly once. */
  lemma {:induction false} MakeObservableModuleOnce(store: map<DeclId, Declaration>, ids: seq<DeclId>, id: DeclId)
    requires forall x :: x in ids ==> x in store
    requires multiset(ids)[id] == 1
    ensures MakeObservableModule(store, ids)[id] == MakeObservableDeclaration(id.kind, store[id])
  {
    assert ids == [ids[0]] + ids[1..];
    var next := store[ids[0] := MakeObservableDeclaration(ids[0].kind, store[ids[0]])];
    if ids[0] == id {
      assert multiset(ids[1..])[id] == 0;
      assert id !in ids[1..];
    } else {
      assert multiset(ids[1..])[id] == 1;
      MakeObservableModuleOnce(next, ids[1..], id);
    }
  }
}
