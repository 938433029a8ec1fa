/**
 The declaration model that the Knockout generator reads and writes.

 The generator works on a TypeScript declaration graph: modules hold
 declarations (classes and interfaces), declarations hold generic parameters
 and members, and members refer to types through type references. In the
 C# code these are mutable objects compared by identity; here every
 declaration is named by a `DeclId`, the source graph is a store from ids to
 declarations, and the declarations a run creates live in a sequence indexed
 by the `index` of their `Generated` id.
 */
module Model {

  datatype Option<+T> = None | Some(value: T)

  datatype Result<+R, +E> = Success(value: R) | Failure(error: E)

  /** The exceptions a generation run can end with. */
  datatype GenError =
    | InterfaceExtendsClass(name: string)     // "Interface X cannot extend class"
    | NullExtendedType(name: string)          // `Any` dereferences a null entry of interface X's `ExtendsTypes`
    | UnsupportedDeclaration(decl: DeclId)    // NotImplementedException in GenerateClasses
    | MissingSourceProperty(name: string)     // `First` finds no source property in fromJS
    | NullTarget(decl: DeclId)                // a table entry without the run's form is filled

  /** The runtime class of a declaration object: `ClassType`, `InterfaceType`
      or some other subclass of `DeclarationBase`. */
  datatype DeclKind = ClassKind | InterfaceKind | OtherKind

  /** Object identity of a declaration. The kind travels with the id, as the
      runtime type travels with an object reference, so that `x is ClassType`
      can be decided from a reference alone. */
  datatype DeclId =
    | Source(kind: DeclKind, key: nat)
    | Generated(kind: DeclKind, index: nat)

  /** `PrimitiveType.Date` is the only primitive the generator tells apart. */
  datatype Primitive = Date | OtherPrimitive(name: string)

  /** A `TypescriptTypeReference`, or the null reference. A non-null reference
      has exactly one of three forms and a list of generic arguments. */
  datatype TypeRef =
    | NullRef
    | Ref(form: RefForm, genericParameters: seq<TypeRef>)

  datatype RefForm =
    | RawForm(raw: seq<RawStatement>)   // `Raw` is set
    | NameForm(typeName: string)        // `TypeName` is set
    | TypeForm(referenced: TypeBase)    // only `ReferencedType` (possibly null)

  /** The value of `ReferencedType`: null, a declaration, an array, a
      primitive, or any other `TypescriptTypeBase`. */
  datatype TypeBase =
    | NoType
    | DeclType(decl: DeclId)
    | ArrayType(elementType: TypeRef)
    | PrimitiveType(primitive: Primitive)
    | OtherType(description: string)

  /** One entry of a `RawStatements` list: literal text, or a
      `RawStatementTypeReference` that a renderer prints as a type. */
  datatype RawStatement = Text(text: string) | TypeStatement(typeReference: TypeRef)

  datatype Accessibility = NoAccessibility | Public | Protected | Private

  /** `initialization` is `None` when the C# field is null. */
  datatype PropertyMember = PropertyMember(
    name: string,
    accessibility: Accessibility,
    memberType: TypeRef,
    initialization: Option<seq<RawStatement>>)

  datatype FunctionMember = FunctionMember(
    name: string,
    parameters: seq<string>,
    body: seq<RawStatement>)

  datatype Member = Property(prop: PropertyMember) | Function(func: FunctionMember)

  datatype GenericParameter = GenericParameter(name: string, constraint: TypeRef)

  /** The fields of `ClassType` and `InterfaceType` together; which of them a
      declaration uses follows from the kind in its id. `declaredExtends` is
      what `GetExtends()` reports for the declaration: its body is not part of
      this model, so the front end supplies the list. */
  datatype Declaration = Declaration(
    name: string,
    genericParameters: seq<GenericParameter>,
    members: seq<Member>,
    baseClass: TypeRef,              // ClassType.Extends
    implementations: seq<TypeRef>,   // ClassType.Implementations
    extendsTypes: seq<TypeRef>,      // InterfaceType.ExtendsTypes
    declaredExtends: seq<TypeRef>)   // DeclarationBase.GetExtends()

  /** A freshly constructed `new ClassType(name)` or `new InterfaceType(name)`. */
  function Skeleton(name: string): Declaration
  {
    Declaration(name, [], [], NullRef, [], [], [])
  }

  /** An element of `TypescriptModule.Members`: a `DeclarationModuleElement`
      (whose `Declaration` may be null) or any other element. */
  datatype ModuleElement =
    | DeclarationElement(declaration: Option<DeclId>)
    | OtherElement(description: string)

  /** `r.ReferencedType`, with `NoType` for null. */
  function ReferencedType(r: TypeRef): TypeBase
  {
    if r.Ref? && r.form.TypeForm? then r.form.referenced else NoType
  }

  /** `r != null && r.ReferencedType != null && r.ReferencedType is ArrayType` */
  predicate IsArray(r: TypeRef)
  {
    ReferencedType(r).ArrayType?
  }

  /** `members.OfType<PropertyMember>()`, in order. */
  function Properties(members: seq<Member>): (ps: seq<PropertyMember>)
    ensures |ps| <= |members|
    ensures forall p :: p in ps <==> Property(p) in members
  {
    if |members| == 0 then []
    else if members[0].Property? then [members[0].prop] + Properties(members[1..])
    else Properties(members[1..])
  }

  /** Wraps each property as a member. */
  function AsMembers(ps: seq<PropertyMember>): (ms: seq<Member>)
    ensures |ms| == |ps|
    ensures forall i :: 0 <= i < |ps| ==> ms[i] == Property(ps[i])
  {
    seq(|ps|, i requires 0 <= i < |ps| => Property(ps[i]))
  }

  /** The non-null declarations of `module.Members.OfType<DeclarationModuleElement>()`, in order. */
  function DeclarationIds(elements: seq<ModuleElement>): (ids: seq<DeclId>)
    ensures |ids| <= |elements|
  {
    if |elements| == 0 then []
    else if elements[0].DeclarationElement? && elements[0].declaration.Some? then
      [elements[0].declaration.value] + DeclarationIds(elements[1..])
    else DeclarationIds(elements[1..])
  }

  /** The ids are exactly the declarations the non-null declaration elements
      point to. */
  lemma {:induction false} DeclarationIdsMembers(elements: seq<ModuleElement>, id: DeclId)
    ensures id in DeclarationIds(elements) <==> DeclarationElement(Some(id)) in elements
  {
    if |elements| > 0 {
      DeclarationIdsMembers(elements[1..], id);
      assert elements == [elements[0]] + elements[1..];
    }
  }

  /** Every declaration a module element points to exists in the store. */
  predicate Closed(store: map<DeclId, Declaration>, elements: seq<ModuleElement>)
  {
    forall id :: id in DeclarationIds(elements) ==> id in store
  }

  lemma PropertiesAppend(a: seq<Member>, b: seq<Member>)
    ensures Properties(a + b) == Properties(a) + Properties(b)
  {
    if |a| == 0 {
      assert a + b == b;
    } else {
      assert (a + b)[1..] == a[1..] + b;
      PropertiesAppend(a[1..], b);
    }
  }

  lemma PropertiesOfAsMembers(ps: seq<PropertyMember>)
    ensures Properties(AsMembers(ps)) == ps
  {
    if |ps| > 0 {
      assert AsMembers(ps)[1..] == AsMembers(ps[1..]);
      PropertiesOfAsMembers(ps[1..]);
    }
  }
}
