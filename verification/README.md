# Knockout generator model

This project is a Dafny model of `KnockoutGenerator`, the TypeGen generator that turns a TypeScript declaration model into a Knockout "observable" model. It has four parts:

- **The reference mapper and type-reference rewriter** (`mapping.dfy`, module `Mapping`):
  - the generator's table from source declarations to their generated class and interface forms;
  - `MapDeclaration`, which looks a declaration up under the current shape;
  - `MapType` / `MapRaw`, which rebuild a type-reference tree with every declaration reference replaced by its mapped form.
- **The property wrappers** (`observable.dfy`, module `Observable`):
  - the class-shape rule, which drops the type and adds a `ko.observable…` initializer;
  - the interface-shape rule, which drops the initializer and uses a `KnockoutObservable…` type;
  - the older static `MakeObservable` pass, which rewrites a whole module in place.
- **The generation drivers** (`generator.dfy`, `fill.dfy`, `run.dfy`; modules `Generator`, `Fill`, `Runs`):
  - `GenerateObservableModule`, `GenerateInterfaces` and `GenerateClasses`, each with its two phases: a skeleton per source declaration, then a fill loop over the whole table;
  - the three fill operations, `GenerateObservableInterface`, `GenerateObservableClassFromInterface` and `GenerateObservableClassFromClass`;
  - the shared `GenerateObservableBase` and `MakeObservableProperty`;
  - the shape stack with its push and pop.
- **The `fromJS` synthesiser** (`fromjs.dfy`, module `FromJs`): `AddFromJsFunction`'s function member, as a list of raw statements.

The shared data model is in `types.dfy` (module `Model`).

## How the model represents the source

- **Declarations.**
  - Declarations are identified by `DeclId`, not by object identity. A source declaration is `Source(kind, key)`. The `i`-th declaration generated into the target is `Generated(kind, i)`.
  - The source declarations live in a store, `map<DeclId, Declaration>`. A module's members are `ModuleElement`s; a declaration element may be null (`DeclarationElement(None)`).
  - `ClassType` and `InterfaceType` are the `DeclKind` of an id. Any other `DeclarationBase` is `OtherKind`.
  - A referenced type that is none of declaration, array or primitive (a `TypescriptType` the generator treats only as "not a declaration") is `OtherType`.
  - `GetExtends()` (not part of this model) is given as the declaration's `declaredExtends` field.
  - `target.Extends` is the `baseClass` field.
- **Type references.**
  - A `TypescriptTypeReference` is null (`NullRef`), or a `Ref` with a form (raw statements, a name, or a referenced type) and generic arguments.
  - A referenced type is a declaration, an array, a primitive, or `NoType` (a null `ReferencedType`).
  - `PrimitiveType.Date` is an enum value.
- **The table.**
  - `_map` is a `MapTable`: its keys in insertion order (what `foreach (var pair in _map)` yields, since nothing is ever removed) and the item each key holds.
  - A null form in a `MapItem` is `None`.
  - The table belongs to the generator and outlives a run, as the C# field does. The run lemmas either take any table or name a fresh generator's `EmptyTable`.
- **The shape stack.** `_interfaceMapping` is a `seq<bool>` with `Push`, `Pop` and `Top`. `MapDeclaration` and `MapType` take the top as a parameter.
- **Exceptions.** Exceptions are values of `GenError`:
  - `First` with no match is `MissingSourceProperty`;
  - "Interface … cannot extend class" is `InterfaceExtendsClass`;
  - the null dereference of a null entry of an interface's `ExtendsTypes` inside the `Any` lambda is `NullExtendedType`;
  - the `NotImplementedException` is `UnsupportedDeclaration`;
  - a null dereference of a missing generated form is `NullTarget`.

  A loop that throws stops there and leaves everything it already changed. The `finally` blocks still pop the stack, so every run returns the caller's stack.

## Behaviour worth noting

The model follows the C# code in each of these cases, some of which a reader of the generator's interface might not expect.

- **The table persists across runs.** `_map` is a field of the generator that is never cleared, so it is not per-run.
  - A second run's fill loop therefore also visits the first run's entries.
  - An entry left by a class run has no interface form. An interface run that must fill it dereferences null (`Runs.ClassRunThenInterfaceRun`).
- **Each entry holds only the run's form.** A declaration outside the table maps to itself, and one inside maps to its form for the current shape, but each run stores only its own form.
  - A lookup under the other shape gives null.
  - In a class run, `GenerateObservableClassFromClass` maps implemented interfaces under interface shape, so a reference to an interface of the same module comes out with no referenced type (`Runs.ClassRunDropsInterfaceReferences`).
- **`KnockoutObservable<any>` covers more than a missing type.** In interface shape, any type without a referenced type becomes the plain name `KnockoutObservable<any>`, not only a missing type. A name-only type such as `string` is included.
- **`fromJS` hydrates only arrays of declarations.** A single declaration-typed property is assigned directly, not hydrated recursively; only an array whose element refers to a declaration is mapped element by element (`FromJs.HydrationOfCases`).
- **The array element comes from the source.** The element constructor named in `fromJS` is the source property's element reference, not the rewritten one (`FromJs.HydrationOfCases`).
- **No `super.fromJS` in practice.** `super.fromJS(obj);` depends on `target.Extends`, which nothing in the generator assigns. Every generated class therefore has no base class, and its `fromJS` never calls `super.fromJS` (`Runs.ClassRunShape`).
- **A null extended type fails the class run.** `Any` visits an interface's extended types in order and dereferences each one. A null entry reached before any reference to a class throws a null dereference (`NullExtendedType`), and the loop over the extended types is never reached with a null entry.
- **The rejected target stays in the module.** An interface whose extended types `Any` rejects (a class reference, or a null entry before one) is rejected before its generated class is touched. The empty skeleton is still in the target module.

## Model

| member | source | states |
|---|---|---|
| `Observable.ExtractArrayElement` | TypeGen/Generators/KnockoutGenerator.cs:108-113 | Defined only on an array reference; the result is the array's element type, a strict part of the reference. |
| `Observable.MakeObservableInitialization` | TypeGen/Generators/KnockoutGenerator.cs:36-67 | The class-shape wrapper keeps name and accessibility, drops the type and always sets an initializer. Read back, that initializer gives the original initializer statements when there were some, else the array's element, else the declared type, null included, so nothing is lost when the type is dropped. |
| `Observable.MakeObservableInterfaceProperty` | TypeGen/Generators/KnockoutGenerator.cs:69-88 | The interface-shape wrapper keeps name and accessibility and drops the initializer. Read back, its type gives the array's element for an array, the declared type when that has a referenced type, and `any` otherwise (a plain name or null). |
| `Observable.ShapesAgreeOnObservedType` | TypeGen/Generators/KnockoutGenerator.cs:36-88 | For a property with no initializer, both shapes observe the same array element or value type whenever the type has a referenced type. When it has none, the class shape keeps the declared type and the interface shape says `any`. |
| `Observable.StaticInterfaceRuleAgreesWithShaped` | TypeGen/Generators/KnockoutGenerator.cs:92-105 | The static interface rule gives the same type as the shaped interface rule exactly when the declared type has a referenced type. Otherwise it wraps the declared type as `KnockoutObservable<T>` rather than using `any`. |
| `Observable.MakeObservableStaticInterfaceProperty` | TypeGen/Generators/KnockoutGenerator.cs:92-105 | The static interface rule keeps name, accessibility and initializer. Read back, its type gives the array's element for an array and the declared type otherwise, null included. |
| `Observable.WrapProperties` | TypeGen/Generators/KnockoutGenerator.cs:28-34 | The static member loop keeps the member count and order. Function members are kept unchanged; property members stay properties with their names and accessibility. Under the class rule each property reads back as the class-shape observation of the original; under the interface rule each keeps its initializer and its type reads back as the observation of the original type. |
| `Observable.MakeObservableDeclaration` | TypeGen/Generators/KnockoutGenerator.cs:13-34 | The per-declaration rewrite leaves any declaration that is neither a class nor an interface unchanged, and otherwise changes only the members, through the member loop with the class or the interface rule by kind. |
| `Observable.MakeObservableModule` | TypeGen/Generators/KnockoutGenerator.cs:13-26 | The static module pass changes no other declaration than the ones the module names. It keeps the set of declarations and every declaration's name. |
| `Observable.MakeObservableModuleOnce` | TypeGen/Generators/KnockoutGenerator.cs:13-26 | A declaration the module names exactly once is the per-declaration rewrite of what it was. |
| `Mapping.PutOrder` | TypeGen/Generators/KnockoutGenerator.cs:157 | Writing `_map[key]` keeps the table valid (each key once, keys and items agree). Every existing entry stays in place, with the new item if it is the key written. A new key becomes the last entry. |
| `Mapping.PutLookup` | TypeGen/Generators/KnockoutGenerator.cs:201 | After writing `_map[key]`, a lookup of that key finds the new item, and every other key reads as before. |
| `Mapping.MapDeclaration` | TypeGen/Generators/KnockoutGenerator.cs:435-445 | A declaration without a table entry maps to itself. One with an entry maps to the entry's interface form under interface shape and to its class form under class shape, null when that form is missing. |
| `Mapping.MapType` | TypeGen/Generators/KnockoutGenerator.cs:402-433 | A null reference stays null and a non-null one stays non-null with the same number of generic arguments; a name-only reference keeps its name. |
| `Mapping.MapRaw` | TypeGen/Generators/KnockoutGenerator.cs:372-390 | The statement list keeps its length; text statements stay text statements, unchanged, and type statements stay type statements. |
| `Mapping.MapTypeKeepsShape` | TypeGen/Generators/KnockoutGenerator.cs:402-433 | `MapType` changes nothing but declaration references. Null stays null. Names, raw text, primitives, array nesting, and the number and order of generic arguments and raw statements are kept. |
| `Mapping.MapRawKeepsShape` | TypeGen/Generators/KnockoutGenerator.cs:372-390 | `MapRaw` keeps the number and order of statements and every text statement, and changes type statements only in their declaration references. |
| `Mapping.MapTypeMentions` | TypeGen/Generators/KnockoutGenerator.cs:402-445 | The declarations a rewritten reference mentions are exactly the `MapDeclaration` images of the declarations the original mentions, in both directions. |
| `Mapping.MapRawMentions` | TypeGen/Generators/KnockoutGenerator.cs:372-390 | The same exact correspondence for raw statement lists. |
| `Mapping.MapTypeOutsideTable` | TypeGen/Generators/KnockoutGenerator.cs:435-445 | A reference that mentions no declaration of the table comes out of `MapType` unchanged: declarations outside the module pass through. |
| `Mapping.MapInitialization` | TypeGen/Generators/KnockoutGenerator.cs:372-376 | A null initializer stays null, a non-null one stays non-null, and the statement count is kept. |
| `FromJs.FindProperty` | TypeGen/Generators/KnockoutGenerator.cs:328 | The `First` lookup finds nothing exactly when no source property has the name. Otherwise it returns a source property of that name with no earlier one of that name. |
| `FromJs.HydrationOfCases` | TypeGen/Generators/KnockoutGenerator.cs:338-361 | For every source property: a single declaration-typed property is assigned directly with no constructor; an array is rebuilt element by element exactly when its element refers to a declaration, and the constructor named is the source property's own element reference. |
| `FromJs.HydrationBody` | TypeGen/Generators/KnockoutGenerator.cs:326-367 | The per-property part fails exactly when some target property has no source property of its name, and it names such a property. It never starts with the `super` call. |
| `FromJs.HydrationBodyIsSegments` | TypeGen/Generators/KnockoutGenerator.cs:326-367 | When every target property has a source, the body is one segment per target property in target order, each built from the first source property of that name: guard, assignment by hydration kind, guard end, newline. |
| `FromJs.FromJsFunction` | TypeGen/Generators/KnockoutGenerator.cs:319-370 | The function is built exactly when every target property has a source property, and the error is `MissingSourceProperty` otherwise. When built, it is named `fromJS`, takes `obj`, ends with `return this;`, and starts with `super.fromJS(obj);` exactly when the target has a base class; `FromJs.FromJsFunctionIsSegments` states the whole body. |
| `FromJs.FromJsFunctionIsSegments` | TypeGen/Generators/KnockoutGenerator.cs:319-370 | When every target property has a source property, the built `fromJS` body is the optional `super` call, then one hydration segment per target property in target order, each from the first source property of that name, then `return this;`. |
| `Generator.MapTypesUnder` | TypeGen/Generators/KnockoutGenerator.cs:269-280 | A push, map and pop block rewrites the list under the pushed shape and leaves the stack as it found it. |
| `Generator.MapTypeUnder` | TypeGen/Generators/KnockoutGenerator.cs:243-251 | The same for one reference: rewritten under the pushed shape, stack restored. |
| `Generator.Push` | TypeGen/Generators/KnockoutGenerator.cs:392-395 | `BeginInterfaceMapping` puts the shape on top and keeps the stack below it. |
| `Generator.Pop` | TypeGen/Generators/KnockoutGenerator.cs:397-400 | `EndInterfaceMapping` removes exactly the top: pushing the old top back restores the stack. |
| `Generator.Top` | TypeGen/Generators/KnockoutGenerator.cs:309 | `Peek` reads the shape pushed last. |
| `Generator.PushPop` | TypeGen/Generators/KnockoutGenerator.cs:392-400 | A pop undoes a push and the top after a push is what was pushed, so each begin/end pair returns the caller's stack. |
| `Generator.MakeObservableProperty` | TypeGen/Generators/KnockoutGenerator.cs:307-317 | Under interface shape the property gets the interface wrapper and no initializer. Under class shape it gets the class wrapper, no type and an initializer. Name and accessibility are kept. |
| `Generator.GenerateObservableBase` | TypeGen/Generators/KnockoutGenerator.cs:288-305 | The target gains the source's generic parameters (rewritten constraints) and its properties (copied, rewritten, wrapped), in source order after its own, and nothing else changes. Its property list is its old one plus one copy per source property. |
| `Generator.BaseKeepsShape` | TypeGen/Generators/KnockoutGenerator.cs:288-305 | The copy adds no function member. Every copied property has the current shape's form, so an interface-shaped or class-shaped target stays so. |
| `Generator.CopiedPropertiesHaveSources` | TypeGen/Generators/KnockoutGenerator.cs:295-304 | After copying into a target with no properties, every target property has a source property of its name, so the `First` lookup of `fromJS` cannot fail. |
| `Generator.GenerateObservableInterface` | TypeGen/Generators/KnockoutGenerator.cs:176-190 | The interface extends its old list, then the rewritten `GetExtends()` list, then, for a class source only, the rewritten implemented interfaces. It gains the source's rewritten generic parameters and one copied property per source property after its own members, and nothing else changes. An interface-shaped target stays interface-shaped. |
| `Generator.ExtendsFault` | TypeGen/Generators/KnockoutGenerator.cs:233-236 | `Any` over an interface's extended types: no exception exactly when every entry is non-null and none refers to a class; "cannot extend class" exactly when a class reference comes before any null entry; a null dereference exactly when a null entry comes before any class reference. |
| `Generator.ClassFirstStep` | TypeGen/Generators/KnockoutGenerator.cs:233 | `Any` reaches a class reference first exactly when the head is non-null and either refers to a class or the rest reaches one first. |
| `Generator.NullFirstStep` | TypeGen/Generators/KnockoutGenerator.cs:233 | `Any` reaches a null entry first exactly when the head refers to no class and either is null or the rest reaches a null entry first. |
| `Generator.ImplementationsFromExtends` | TypeGen/Generators/KnockoutGenerator.cs:237-257 | One implemented type per extended type, in order. One that refers to an interface is rewritten under interface shape, any other under the current shape, and the stack is restored. It requires every entry non-null, which `Any` has already ensured by dereferencing each one. |
| `Generator.AddFromJs` | TypeGen/Generators/KnockoutGenerator.cs:260-263 | With the flag off, the target is unchanged. With it on, the step fails exactly when a target property has no source, and the target is then unchanged. Otherwise exactly the `fromJS` that `FromJsFunction` builds for the target is appended. Properties are never changed. |
| `Generator.GenerateObservableClassFromInterface` | TypeGen/Generators/KnockoutGenerator.cs:231-265 | A source whose extended types `Any` rejects (a class reference, or a null entry before one) is rejected with the `ExtendsFault` exception, target and stack untouched. Otherwise the target gets one implemented type per extended type (rewritten as the loop does) after its own, the rewritten generic parameters and the copied properties after its own, and nothing else changes; it cannot fail on a target with no properties. A class-shaped target stays class-shaped, and a target whose function members are all `fromJS` members keeps that. |
| `Generator.ClassFromInterfaceOutcome` | TypeGen/Generators/KnockoutGenerator.cs:258-262 | For an accepted source, the generated class's members are its old members and the copied properties, followed, when `fromJS` is enabled and every property has a source property, by the `fromJS` `FromJsFunction` builds for the copied class; it fails exactly when `fromJS` is enabled and some property lacks a source, and then no `fromJS` is added. |
| `Generator.GenerateObservableClassFromClass` | TypeGen/Generators/KnockoutGenerator.cs:267-286 | The target implements its old list plus the source's implemented interfaces rewritten under interface shape, gains the rewritten generic parameters and the copied properties after its own, and nothing else changes; it cannot fail on a target with no properties. The stack is restored and the shape is kept. |
| `Generator.ClassFromClassOutcome` | TypeGen/Generators/KnockoutGenerator.cs:280-284 | The same members-and-exception outcome of the base copy and the built `fromJS` for a class source. |
| `Fill.InterfaceEntry` | TypeGen/Generators/KnockoutGenerator.cs:165-168 | One iteration changes only the entry's own generated interface and keeps every name. It fails, with `NullTarget` of the key, exactly when the entry has no interface form and the source has anything to write. |
| `Fill.FillInterfaces` | TypeGen/Generators/KnockoutGenerator.cs:165-168 | The interface loop changes only declarations some entry targets. It fails exactly when some entry fails, and every error is `NullTarget`. |
| `Fill.InterfacePhase` | TypeGen/Generators/KnockoutGenerator.cs:162-173 | The interface phase keeps the stack and the names. It changes only targeted declarations, fails exactly when some entry fails, and keeps interface-shaped declarations interface-shaped. |
| `Fill.FillInterfacesSlots` | TypeGen/Generators/KnockoutGenerator.cs:165-168 | When no two entries share a generated interface and the loop completes, each entry's interface is `GenerateObservableInterface` applied once to what it held before. |
| `Fill.ClassStep` | TypeGen/Generators/KnockoutGenerator.cs:211-222 | The dispatch rejects a declaration that is neither a class nor an interface with `UnsupportedDeclaration`, and an interface whose extended types `Any` rejects with the `ExtendsFault` exception, without touching the target. It cannot fail otherwise on a target with no properties. It keeps name, base class and shape. |
| `Fill.ClassEntry` | TypeGen/Generators/KnockoutGenerator.cs:209-223 | One iteration changes only the entry's own generated class. It fails on a rejected declaration (neither class nor interface, or an interface `Any` rejects) or a missing class form with something to write. On a target with no properties, and on an entry with no class form, it fails only then. |
| `Fill.ClassEntryWithoutForm` | TypeGen/Generators/KnockoutGenerator.cs:209-223 | For an entry with no class form, the generated declarations are untouched, and the iteration fails exactly when the source is rejected or would write to the missing class. |
| `Fill.ClassEntryAt` | TypeGen/Generators/KnockoutGenerator.cs:211-222 | For an entry whose class form is a slot, only that slot changes, keeping its name and base class. A rejected source always fails. On a slot with no properties, nothing else fails. |
| `Fill.FillClasses` | TypeGen/Generators/KnockoutGenerator.cs:209-223 | The class loop changes only targeted declarations, fails whenever some entry must fail, and keeps class shape and the `fromJS`-only function members. |
| `Fill.ClassPhase` | TypeGen/Generators/KnockoutGenerator.cs:206-228 | The class phase keeps the stack and the names. It changes only targeted declarations, fails whenever some entry must fail, and keeps class-shaped declarations class-shaped. |
| `Fill.FillClassesFails` | TypeGen/Generators/KnockoutGenerator.cs:209-223 | On targets with no properties, no two shared, the class loop fails exactly when some entry fails whatever its target holds. |
| `Fill.FillClassesSlots` | TypeGen/Generators/KnockoutGenerator.cs:209-223 | When no two entries share a generated class and the loop completes, each entry's class is the dispatched generation applied once to what it held before. |
| `Runs.SkeletonTableKeys` | TypeGen/Generators/KnockoutGenerator.cs:150-160 | The first phase adds exactly the declarations the module names to the table's keys. |
| `Runs.SkeletonTableOthers` | TypeGen/Generators/KnockoutGenerator.cs:150-160 | The first phase leaves every other declaration's entry as it was. |
| `Runs.SkeletonTableLookup` | TypeGen/Generators/KnockoutGenerator.cs:150-160 | After the first phase, a declaration's entry holds the skeleton of the last element naming it, in the run's form only. |
| `Runs.SkeletonTableMapping` | TypeGen/Generators/KnockoutGenerator.cs:435-445 | After the first phase, a declaration of the module maps to its new skeleton under the run's shape and to null under the other shape. |
| `Runs.SkeletonTableMappingOthers` | TypeGen/Generators/KnockoutGenerator.cs:435-445 | After the first phase, any other declaration maps as before. |
| `Runs.GenerateInterfaces` | TypeGen/Generators/KnockoutGenerator.cs:148-174 | The interface run appends one interface element per non-null declaration element, in order, and leaves the caller's stack. It fails, with `NullTarget`, exactly when some table entry cannot be filled, and keeps earlier interface-shaped declarations interface-shaped. |
| `Runs.InterfaceRunShape` | TypeGen/Generators/KnockoutGenerator.cs:148-174 | Every interface the run creates is interface-shaped: no property has an initializer. |
| `Runs.FreshInterfaceRun` | TypeGen/Generators/KnockoutGenerator.cs:148-174 | On a fresh generator the interface run does not fail. The skeleton of the last element naming a declaration becomes `GenerateObservableInterface` of it under interface shape. Earlier skeletons of the same declaration stay empty. Declarations generated before are untouched. |
| `Runs.GenerateClasses` | TypeGen/Generators/KnockoutGenerator.cs:192-229 | The class run appends one class element per non-null declaration element, in order, and leaves the caller's stack. It fails whenever some entry must fail, and keeps earlier class-shaped declarations class-shaped. |
| `Runs.ClassRunShape` | TypeGen/Generators/KnockoutGenerator.cs:192-229 | Every class the run creates is class-shaped and has no base class. Its only function members are `fromJS` members that do not call `super.fromJS`. |
| `Runs.FreshClassRunFails` | TypeGen/Generators/KnockoutGenerator.cs:192-229 | On a fresh generator the class run fails exactly when the module names a declaration that is neither a class nor an interface, or an interface whose extended types `Any` rejects: a reference to a class, or a null entry before any such reference. |
| `Runs.FreshClassRunSlot` | TypeGen/Generators/KnockoutGenerator.cs:192-229 | On a fresh generator, when the class run does not fail, the kept skeleton of each declaration is the dispatched generation from it under class shape. Earlier skeletons of the same declaration stay empty, and earlier declarations are untouched. |
| `Runs.GenerateObservableModule` | TypeGen/Generators/KnockoutGenerator.cs:131-146 | Either run appends one element of its kind per non-null declaration element, keeps the table valid, and leaves the caller's stack. The table it returns is the chosen run's first-phase table. An interface run raises an exception exactly when some entry of that table has no interface form while its source has something to write, and that exception is always the null-target one. A class run raises one whenever some entry is rejected or lacks a class form it must write to. |
| `Runs.RunNames` | TypeGen/Generators/KnockoutGenerator.cs:150-158 | Each declaration a run creates has the name of the source declaration its element names. Declarations generated before keep their names. |
| `Runs.ClassRunDropsInterfaceReferences` | TypeGen/Generators/KnockoutGenerator.cs:269-275 | After a class run's first phase, a reference to a declaration of the module rewritten under interface shape has no referenced type; its generic arguments are still rewritten. |
| `Runs.InterfaceRunFailsOnStaleEntry` | TypeGen/Generators/KnockoutGenerator.cs:162-173 | An interface run fails when the table it starts from holds, for a declaration the run does not name, an entry with no interface form, and that declaration has something to write. |
| `Runs.ClassRunThenInterfaceRun` | TypeGen/Generators/KnockoutGenerator.cs:124-130 | One generator, two runs: after a class run over a declaration, an interface run over a module that does not name it fails whenever that declaration has something to write. |
| `Model.DeclarationIdsMembers` | TypeGen/Generators/KnockoutGenerator.cs:150-152 | The declarations a run visits are exactly those of the module's non-null declaration elements. |

## Left out

- Object identity and hashing: declarations are ids, and the table is keyed by id. Two distinct source objects with equal content are two ids.
- The bodies of `TypescriptModule`, `ClassType`, `InterfaceType`, `TypescriptTypeReference`, `RawStatements` and `GetExtends()` are not part of this model. They appear as datatypes and fields.
- Exception messages: an exception is a `GenError` value naming its cause, without the message text.
- The exception `ExtractArrayElement` throws is not modelled, because every caller checks for an array first. The function requires an array instead.
- The exception that `Peek` on an empty stack throws is not modelled. `MapDeclaration` and `MapType` take the shape as a parameter, and every call site in the generator runs under a pushed shape.
- Rendering raw statements to TypeScript text, and all I/O.
- Name collisions between generated declarations, and the "implementation code" for interfaces a class implements: the source leaves both as TODOs without behaviour.
- `IsOptional` is not copied: the copy is commented out in the source.
- Accessibility is carried as an opaque value.
- `Runs.FreshInterfaceRun`: the content of the filled declarations is stated for a fresh generator (`EmptyTable`) only. With an earlier run's table, a run also refills the earlier run's generated declarations. Only the stale-entry failures (`Runs.InterfaceRunFailsOnStaleEntry`, `Runs.ClassRunThenInterfaceRun`) are stated for that case.
- `Runs.FreshClassRunSlot`: fresh generator only, for the same reason.
- `Fill.FillClasses`: the class loop's failure is stated one way only (an entry that must fail makes the loop fail); the converse holds on fresh skeletons with no properties and is proved there (`Fill.FillClassesFails`), but with arbitrary targets a step can also fail on existing properties that lack a source property.
- `Runs.GenerateClasses`: likewise one way only for an arbitrary table; the exact condition is proved for a fresh generator (`Runs.FreshClassRunFails`).
- `Runs.GenerateObservableModule`: a class run's failure is stated one way only, as for `Runs.GenerateClasses`; the interface run's failure is exact.
- `Fill.ClassPhase`: the class phase's failure is stated one way, that an entry that must fail makes the run fail. For any targets, a step can also fail on a target whose existing properties lack a source property. The exact condition is stated for fresh skeletons (`Fill.FillClassesFails`, `Runs.FreshClassRunFails`).
