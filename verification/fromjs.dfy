/**
 The `fromJS` synthesiser of the Knockout generator (`AddFromJsFunction`):
 a function member, added to a generated class, that copies every property
 from a plain object `obj` into the class's observables and returns `this`.
 The body is a list of raw statements: literal text and type references.
 */
module FromJs {
  import opened Model
  import opened Observable

  /** How one property is read from `obj`. */
  datatype Hydration =
    | Direct                                 // this.X(obj.X)
    | DateConstructor                        // this.X(new Date(obj.X))
    | ArrayOfDeclarations(element: TypeRef)  // this.X(obj.X.map(item=>new E().fromJS(item)))

  /** The choice made from the SOURCE property's type: an array whose element
      refers to a declaration is mapped element by element (with the source
      element reference, not a rewritten one), `Date` is constructed, and
      everything else, a single declaration included, is assigned directly. */
  function HydrationOf(source: PropertyMember): Hydration
  {
    var itemType := ReferencedType(source.memberType);
    if itemType.ArrayType? then
      var element := ExtractArrayElement(source.memberType);
      if element != NullRef && ReferencedType(element).DeclType? then ArrayOfDeclarations(element)
      else Direct
    else if itemType == PrimitiveType(Date) then DateConstructor
    else Direct
  }

  /** The two hydration choices worth noting. A property whose type is a
      single declaration is assigned directly, with no constructor call. An
      array is rebuilt element by element exactly when its element refers to
      a declaration, and the constructor named is the source property's own
      element reference. */
  lemma HydrationOfCases(source: PropertyMember)
    ensures ReferencedType(source.memberType).DeclType? ==>
      && HydrationOf(source) == Direct
      && Assignment(source.name, HydrationOf(source)) == [Text("this." + source.name + "(obj." + source.name + ")")]
    ensures HydrationOf(source).ArrayOfDeclarations? <==>
      && IsArray(source.memberType)
      && ExtractArrayElement(source.memberType) != NullRef
      && ReferencedType(ExtractArrayElement(source.memberType)).DeclType?
    ensures HydrationOf(source).ArrayOfDeclarations? ==>
      && HydrationOf(source).element == ExtractArrayElement(source.memberType)
      && TypeStatement(ExtractArrayElement(source.memberType)) in Assignment(source.name, HydrationOf(source))
  {
  }

  /** The assignment statements for property `name`. */
  function Assignment(name: string, h: Hydration): seq<RawStatement>
  {
    match h
    case Direct => [Text("this." + name + "(obj." + name + ")")]
    case DateConstructor => [Text("this." + name + "(new Date(obj." + name + "))")]
    case ArrayOfDeclarations(element) =>
      [Text("this." + name + "(obj." + name + ".map(item=>new "), TypeStatement(element), Text("().fromJS(item)))")]
  }

  /** One property's part of the body: the assignment, guarded by
      `if (obj.X) { … };` when the existence check is on, then a newline. */
  function Segment(name: string, h: Hydration, existenceCheck: bool): seq<RawStatement>
  {
    (if existenceCheck then [Text("if (obj." + name + ") { ")] else [])
    + Assignment(name, h)
    + (if existenceCheck then [Text("};")] else [])
    + [Text("\n")]
  }

  /** A segment starts with the guard or the assignment, never with the
      `super` call. */
  lemma SegmentStart(name: string, h: Hydration, existenceCheck: bool)
    ensures |Segment(name, h, existenceCheck)| > 0
    ensures Segment(name, h, existenceCheck)[0] != Text("super.fromJS(obj);\n")
  {
    var first := Segment(name, h, existenceCheck)[0];
    assert first.text[0] != "super.fromJS(obj);\n"[0];
  }

  /** `src.Members.OfType<PropertyMember>().First(x => x.Name == name)`;
      `None` where `First` throws. */
  function FindProperty(props: seq<PropertyMember>, name: string): (r: Option<PropertyMember>)
    ensures r.None? <==> forall i :: 0 <= i < |props| ==> props[i].name != name
    ensures r.Some? ==> r.value in props && r.value.name == name
    ensures r.Some? ==>
      exists i :: 0 <= i < |props| && props[i] == r.value && (forall j :: 0 <= j < i ==> props[j].name != name)
  {
    if |props| == 0 then None
    else if props[0].name == name then Some(props[0])
    else
      var r := FindProperty(props[1..], name);
      assert forall i :: 1 <= i < |props| ==> props[i] == props[1..][i - 1];
      r
  }

  /** The per-property part of the body, one segment per target property in
      order, or the name of the first target property with no source
      property of that name. */
  function HydrationBody(sourceProps: seq<PropertyMember>, targetProps: seq<PropertyMember>, existenceCheck: bool)
    : (r: Result<seq<RawStatement>, string>)
    ensures r.Failure? <==> exists i :: 0 <= i < |targetProps| && FindProperty(sourceProps, targetProps[i].name).None?
    ensures r.Failure? ==> FindProperty(sourceProps, r.error).None?
    ensures r.Success? && |r.value| > 0 ==> r.value[0] != Text("super.fromJS(obj);\n")
  {
    if |targetProps| == 0 then Success([])
    else
      var name := targetProps[0].name;
      match FindProperty(sourceProps, name)
      case None => Failure(name)
      case Some(source) =>
        var rest := HydrationBody(sourceProps, targetProps[1..], existenceCheck);
        assert forall i :: 1 <= i < |targetProps| ==> targetProps[i] == targetProps[1..][i - 1];
        match rest
        case Failure(e) => Failure(e)
        case Success(tail) =>
          var segment := Segment(name, HydrationOf(source), existenceCheck);
          SegmentStart(name, HydrationOf(source), existenceCheck);
          Success(segment + tail)
  }

  /** `super.fromJS(obj);` when the target class has a base class. */
  function FromJsPrelude(target: Declaration): seq<RawStatement>
  {
    if target.baseClass != NullRef then [Text("super.fromJS(obj);\n")] else []
  }

  /** `AddFromJsFunction`'s function member: `super.fromJS(obj);` first when
      the target class has a base class, then one segment per target
      property, then `return this;`. */
  function FromJsFunction(source: Declaration, target: Declaration, existenceCheck: bool): (r: Result<FunctionMember, GenError>)
    ensures r.Success? <==>
      forall p :: p in Properties(target.members) ==> FindProperty(Properties(source.members), p.name).Some?
    ensures r.Success? ==>
      && r.value.name == "fromJS" && r.value.parameters == ["obj"]
      && |r.value.body| > 0 && r.value.body[|r.value.body| - 1] == Text("return this;")
      && (|r.value.body| > 0 && r.value.body[0] == Text("super.fromJS(obj);\n") <==> target.baseClass != NullRef)
    ensures r.Failure? ==> r.error.MissingSourceProperty?
  {
    var prelude := FromJsPrelude(target);
    match HydrationBody(Properties(source.members), Properties(target.members), existenceCheck)
    case Failure(name) => Failure(MissingSourceProperty(name))
    case Success(body) =>
      var all := prelude + body + [Text("return this;")];
      Success(FunctionMember("fromJS", ["obj"], all))
  }

  function Concat(parts: seq<seq<RawStatement>>): seq<RawStatement>
  {
    if |parts| == 0 then [] else parts[0] + Concat(parts[1..])
  }

  /** The hydration of the source property a target property is read from. */
  function PlannedSegment(sourceProps: seq<PropertyMember>, target: PropertyMember, existenceCheck: bool): seq<RawStatement>
    requires FindProperty(sourceProps, target.name).Some?
  {
    Segment(target.name, HydrationOf(FindProperty(sourceProps, target.name).value), existenceCheck)
  }

  /** When every target property has a source property, the body is one
      segment per target property, in target order, each built from the FIRST
      source property of that name. */
  lemma {:induction false} HydrationBodyIsSegments(sourceProps: seq<PropertyMember>, targetProps: seq<PropertyMember>, existenceCheck: bool)
    requires forall i :: 0 <= i < |targetProps| ==> FindProperty(sourceProps, targetProps[i].name).Some?
    ensures HydrationBody(sourceProps, targetProps, existenceCheck) ==
      Success(Concat(seq(|targetProps|, i requires 0 <= i < |targetProps| =>
        PlannedSegment(sourceProps, targetProps[i], existenceCheck))))
  {
    var parts := seq(|targetProps|, i requires 0 <= i < |targetProps| =>
      PlannedSegment(sourceProps, targetProps[i], existenceCheck));
    if |targetProps| > 0 {
      HydrationBodyIsSegments(sourceProps, targetProps[1..], existenceCheck);
      assert parts[1..] == seq(|targetProps[1..]|, i requires 0 <= i < |targetProps[1..]| =>
        PlannedSegment(sourceProps, targetProps[1..][i], existenceCheck));
    }
  }

  /** The whole `fromJS` body, when it can be built: the `super` call for a
      class with a base class, then, for each target property in order, the
      segment hydrating it from the first source property of its name, then
      `return this;`. */
  lemma FromJsFunctionIsSegments(source: Declaration, target: Declaration, existenceCheck: bool)
    requires forall p :: p in Properties(target.members) ==> FindProperty(Properties(source.members), p.name).Some?
    ensures var sp, tp := Properties(source.members), Properties(target.members);
      FromJsFunction(source, target, existenceCheck) ==
        Success(FunctionMember("fromJS", ["obj"],
          FromJsPrelude(target)
          + Concat(seq(|tp|, i requires 0 <= i < |tp| => PlannedSegment(sp, tp[i], existenceCheck)))
          + [Text("return this;")]))
  {
    var sp, tp := Properties(source.members), Properties(target.members);
    assert forall i :: 0 <= i < |tp| ==> tp[i] in tp;
    HydrationBodyIsSegments(sp, tp, existenceCheck);
  }
}
