/**
 The reference mapper and the type-reference rewriter of the Knockout
 generator: the per-run table from source declarations to their generated
 forms, `MapDeclaration`, and the recursive `MapType` / `MapRaw`.

 The table is the C# `Dictionary<DeclarationBase, MapItem>`: its keys in
 insertion order (the order in which a run's fill phase visits them) and
 the item each key holds. The top of the shape stack is passed in as
 `interfaceShape`.
 */
module Mapping {
  import opened Model

  /** The generated forms of one source declaration; a C# null is `None`. */
  datatype MapItem = MapItem(classForm: Option<DeclId>, interfaceForm: Option<DeclId>)

  /** One `KeyValuePair` of the table, as the fill loop sees it. */
  datatype MapEntry = MapEntry(key: DeclId, item: MapItem)

  /** The C# `Dictionary<DeclarationBase, MapItem>`: the keys in insertion
      order (the order its enumerator yields them, since nothing is ever
      removed) and the item each key holds. */
  datatype MapTable = MapTable(order: seq<DeclId>, items: map<DeclId, MapItem>)

  /** A fresh generator's empty table. */
  const EmptyTable: MapTable := MapTable([], map[])

  /** Positions `i` and `j` of `keys` hold different keys. */
  predicate Apart(keys: seq<DeclId>, i: nat, j: nat)
    requires i < |keys| && j < |keys|
  {
    keys[i] != keys[j]
  }

  /** Every key appears once in the order, and the order lists exactly the
      keys that hold an item. */
  predicate ValidTable(table: MapTable)
  {
    && (forall i: nat, j: nat {:trigger Apart(table.order, i, j)} :: i < j < |table.order| ==> Apart(table.order, i, j))
    && (forall k :: k in table.order ==> k in table.items)
    && (forall k :: k in table.items ==> k in table.order)
  }

  /** `foreach (var pair in _map)`: the entries in insertion order. */
  function Entries(table: MapTable): (es: seq<MapEntry>)
    requires ValidTable(table)
    ensures |es| == |table.order|
    ensures forall j :: 0 <= j < |es| ==> es[j].key == table.order[j] && es[j].key in table.items
  {
    seq(|table.order|, j requires 0 <= j < |table.order| => MapEntry(table.order[j], table.items[table.order[j]]))
  }

  /** `_map.TryGetValue(key, out item)` */
  function Lookup(table: MapTable, key: DeclId): Option<MapItem>
  {
    if key in table.items then Some(table.items[key]) else None
  }

  /** `_map[key] = item`: an existing key keeps its position and takes the new
      item; a new key goes to the end. */
  function Put(table: MapTable, key: DeclId, item: MapItem): MapTable
  {
    MapTable(if key in table.items then table.order else table.order + [key], table.items[key := item])
  }

  /** `Put` keeps the table valid. */
  lemma PutKeepsValid(table: MapTable, key: DeclId, item: MapItem)
    requires ValidTable(table)
    ensures ValidTable(Put(table, key, item))
  {
    var r := Put(table, key, item);
    forall k | k in r.items || k in r.order
      ensures k in r.items <==> k in r.order
    {
      assert k in r.order <==> k in table.order || (key !in table.items && k == key);
    }
    forall i: nat, j: nat | i < j < |r.order|
      ensures Apart(r.order, i, j)
    {
      if j < |table.order| {
        assert Apart(table.order, i, j);
      }
    }
  }

  /** `Put` seen through one lookup: the key written reads back the new item,
      every other key reads as before. */
  lemma PutLookup(table: MapTable, key: DeclId, item: MapItem, k: DeclId)
    ensures Lookup(Put(table, key, item), k) == if k == key then Some(item) else Lookup(table, k)
  {
  }

  /** `Put` keeps the position of every entry already there, each with its
      item unless it is the key written, and appends a new key as the last
      entry. */
  lemma {:induction false} PutOrder(table: MapTable, key: DeclId, item: MapItem)
    requires ValidTable(table)
    ensures ValidTable(Put(table, key, item))
    ensures var es, es' := Entries(table), Entries(Put(table, key, item));
      && |es'| == |es| + (if key in table.items then 0 else 1)
      && (forall j :: 0 <= j < |es| ==> es'[j] == (if es[j].key == key then MapEntry(key, item) else es[j]))
      && (key !in table.items ==> es'[|es|] == MapEntry(key, item))
  {
    PutKeepsValid(table, key, item);
  }

  /** Every key of a valid table has its entry. */
  lemma EntryOf(table: MapTable, k: DeclId) returns (j: nat)
    requires ValidTable(table) && k in table.items
    ensures j < |Entries(table)| && Entries(table)[j] == MapEntry(k, table.items[k])
  {
    j :| 0 <= j < |table.order| && table.order[j] == k;
  }

  /** `Put` adds no entry but the one written. */
  lemma PutEntries(table: MapTable, key: DeclId, item: MapItem, e: MapEntry)
    requires ValidTable(table)
    ensures ValidTable(Put(table, key, item))
    ensures e in Entries(Put(table, key, item)) ==> e in Entries(table) || e == MapEntry(key, item)
  {
    PutOrder(table, key, item);
    var es, es' := Entries(table), Entries(Put(table, key, item));
    if e in es' {
      var j :| 0 <= j < |es'| && es'[j] == e;
      if j < |es| && es[j].key != key {
        assert es[j] == e;
      }
    }
  }

  /** The declaration a reference to `decl` is rewritten to under the current
      shape: a declaration without an entry is kept, one with an entry
      becomes the entry's form for the shape; `None` is the C# null returned
      when the entry lacks that form. */
  function MapDeclaration(table: MapTable, interfaceShape: bool, decl: DeclId): (r: Option<DeclId>)
    ensures decl !in table.items ==> r == Some(decl)
    ensures decl in table.items && interfaceShape ==> r == table.items[decl].interfaceForm
    ensures decl in table.items && !interfaceShape ==> r == table.items[decl].classForm
  {
    match Lookup(table, decl)
    case None => Some(decl)
    case Some(item) => if interfaceShape then item.interfaceForm else item.classForm
  }

  /** `MapType`: rewrites every declaration reference inside `r`, leaving all
      other parts of the tree as they are. Raw statements go through `MapRaw`,
      a name is kept, a declaration is looked up, an array has its element
      rewritten, every other referenced type is kept, and each generic
      argument is rewritten in place. */
  function MapType(table: MapTable, interfaceShape: bool, r: TypeRef): (m: TypeRef)
    ensures m.NullRef? <==> r.NullRef?
    ensures r.Ref? ==> |m.genericParameters| == |r.genericParameters|
    ensures r.Ref? && r.form.NameForm? ==> m.form == r.form
  {
    match r
    case NullRef => NullRef
    case Ref(form, generics) =>
      var form' :=
        match form
        case RawForm(raw) => RawForm(MapRaw(table, interfaceShape, raw))
        case NameForm(name) => NameForm(name)
        case TypeForm(DeclType(decl)) =>
          (match MapDeclaration(table, interfaceShape, decl)
           case None => TypeForm(NoType)
           case Some(d) => TypeForm(DeclType(d)))
        case TypeForm(ArrayType(element)) => TypeForm(ArrayType(MapType(table, interfaceShape, element)))
        case TypeForm(other) => TypeForm(other);
      Ref(form', seq(|generics|, i requires 0 <= i < |generics| => MapType(table, interfaceShape, generics[i])))
  }

  /** `MapRaw` on a non-null list: type statements are rewritten, every other
      statement is kept. */
  function MapRaw(table: MapTable, interfaceShape: bool, raw: seq<RawStatement>): (ms: seq<RawStatement>)
    ensures |ms| == |raw|
    ensures forall i :: 0 <= i < |raw| ==> (ms[i].Text? <==> raw[i].Text?)
    ensures forall i :: 0 <= i < |raw| && raw[i].Text? ==> ms[i] == raw[i]
  {
    seq(|raw|, i requires 0 <= i < |raw| => MapStatement(table, interfaceShape, raw[i]))
  }

  /** Each reference of a list rewritten by `MapType`, in order. */
  function MapTypeList(table: MapTable, interfaceShape: bool, rs: seq<TypeRef>): (ms: seq<TypeRef>)
    ensures |ms| == |rs|
    ensures forall i :: 0 <= i < |rs| ==> ms[i] == MapType(table, interfaceShape, rs[i])
  {
    seq(|rs|, i requires 0 <= i < |rs| => MapType(table, interfaceShape, rs[i]))
  }

  /** `MapRaw` as called on a property initializer: null stays null. */
  function MapInitialization(table: MapTable, interfaceShape: bool, init: Option<seq<RawStatement>>): (m: Option<seq<RawStatement>>)
    ensures m.None? <==> init.None?
    ensures init.Some? ==> |m.value| == |init.value|
  {
    match init
    case None => None
    case Some(raw) => Some(MapRaw(table, interfaceShape, raw))
  }

  function MapStatement(table: MapTable, interfaceShape: bool, s: RawStatement): RawStatement
  {
    match s
    case Text(t) => Text(t)
    case TypeStatement(t) => TypeStatement(MapType(table, interfaceShape, t))
  }

  /** `r` with every declaration reference blanked out: the part of a type
      reference that `MapType` must leave alone. */
  function Erase(r: TypeRef): TypeRef
  {
    match r
    case NullRef => NullRef
    case Ref(form, generics) =>
      var form' :=
        match form
        case RawForm(raw) => RawForm(EraseRaw(raw))
        case TypeForm(DeclType(_)) => TypeForm(NoType)
        case TypeForm(ArrayType(element)) => TypeForm(ArrayType(Erase(element)))
        case _ => form;
      Ref(form', seq(|generics|, i requires 0 <= i < |generics| => Erase(generics[i])))
  }

  function EraseRaw(raw: seq<RawStatement>): seq<RawStatement>
  {
    seq(|raw|, i requires 0 <= i < |raw| => EraseStatement(raw[i]))
  }

  function EraseStatement(s: RawStatement): RawStatement
  {
    match s
    case Text(t) => Text(t)
    case TypeStatement(t) => TypeStatement(Erase(t))
  }

  /** `r` refers to declaration `d` somewhere in its tree. */
  predicate Mentions(r: TypeRef, d: DeclId)
    decreases r, 1
  {
    match r
    case NullRef => false
    case Ref(form, generics) =>
      || FormMentions(r, d)
      || exists i :: 0 <= i < |generics| && Mentions(generics[i], d)
  }

  /** The form of a non-null `r` refers to `d`. */
  predicate FormMentions(r: TypeRef, d: DeclId)
    requires r.Ref?
    decreases r, 0
  {
    match r.form
    case RawForm(raw) => RawMentions(raw, d)
    case NameForm(_) => false
    case TypeForm(DeclType(x)) => x == d
    case TypeForm(ArrayType(element)) => Mentions(element, d)
    case TypeForm(_) => false
  }

  predicate RawMentions(raw: seq<RawStatement>, d: DeclId)
  {
    exists i :: 0 <= i < |raw| && StatementMentions(raw[i], d)
  }

  predicate StatementMentions(s: RawStatement, d: DeclId)
  {
    s.TypeStatement? && Mentions(s.typeReference, d)
  }

  /** `MapType` keeps everything but declaration references: the shape of the
      tree, raw text, names, primitives, the number and order of generic
      arguments and of raw statements. */
  lemma {:induction false} MapTypeKeepsShape(table: MapTable, interfaceShape: bool, r: TypeRef)
    ensures Erase(MapType(table, interfaceShape, r)) == Erase(r)
    decreases r
  {
    match r
    case NullRef =>
    case Ref(form, generics) =>
      var m := MapType(table, interfaceShape, r);
      forall i | 0 <= i < |generics|
        ensures Erase(m.genericParameters[i]) == Erase(generics[i])
      {
        MapTypeKeepsShape(table, interfaceShape, generics[i]);
      }
      match form
      case RawForm(raw) => MapRawKeepsShape(table, interfaceShape, raw);
      case NameForm(_) =>
      case TypeForm(DeclType(_)) =>
      case TypeForm(ArrayType(element)) => MapTypeKeepsShape(table, interfaceShape, element);
      case TypeForm(_) =>
  }

  lemma {:induction false} MapRawKeepsShape(table: MapTable, interfaceShape: bool, raw: seq<RawStatement>)
    ensures EraseRaw(MapRaw(table, interfaceShape, raw)) == EraseRaw(raw)
    decreases raw
  {
    forall i | 0 <= i < |raw|
      ensures EraseStatement(MapStatement(table, interfaceShape, raw[i])) == EraseStatement(raw[i])
    {
      MapStatementKeepsShape(table, interfaceShape, raw[i]);
    }
  }

  lemma {:induction false} MapStatementKeepsShape(table: MapTable, interfaceShape: bool, s: RawStatement)
    ensures EraseStatement(MapStatement(table, interfaceShape, s)) == EraseStatement(s)
    decreases s
  {
    if s.TypeStatement? {
      MapTypeKeepsShape(table, interfaceShape, s.typeReference);
    }
  }

  /** The declarations the rewritten reference mentions are exactly the
      images, under `MapDeclaration`, of the declarations the original
      mentions. A declaration outside the table is its own image. */
  lemma {:induction false} MapTypeMentions(table: MapTable, interfaceShape: bool, r: TypeRef, d: DeclId)
    ensures Mentions(MapType(table, interfaceShape, r), d) <==>
      exists x :: Mentions(r, x) && MapDeclaration(table, interfaceShape, x) == Some(d)
    decreases r
  {
    match r
    case NullRef =>
    case Ref(form, generics) =>
      var m := MapType(table, interfaceShape, r);
      forall i | 0 <= i < |generics|
        ensures Mentions(m.genericParameters[i], d) <==>
          exists x :: Mentions(generics[i], x) && MapDeclaration(table, interfaceShape, x) == Some(d)
      {
        MapTypeMentions(table, interfaceShape, generics[i], d);
      }
      match form
      case RawForm(raw) => MapRawMentions(table, interfaceShape, raw, d);
      case NameForm(_) =>
      case TypeForm(DeclType(_)) =>
      case TypeForm(ArrayType(element)) => MapTypeMentions(table, interfaceShape, element, d);
      case TypeForm(_) =>
  }

  lemma {:induction false} MapRawMentions(table: MapTable, interfaceShape: bool, raw: seq<RawStatement>, d: DeclId)
    ensures RawMentions(MapRaw(table, interfaceShape, raw), d) <==>
      exists x :: RawMentions(raw, x) && MapDeclaration(table, interfaceShape, x) == Some(d)
    decreases raw
  {
    var m := MapRaw(table, interfaceShape, raw);
    if RawMentions(m, d) {
      var i :| 0 <= i < |m| && StatementMentions(m[i], d);
      MapStatementMentions(table, interfaceShape, raw[i], d);
      var x :| StatementMentions(raw[i], x) && MapDeclaration(table, interfaceShape, x) == Some(d);
    }
    if exists x :: RawMentions(raw, x) && MapDeclaration(table, interfaceShape, x) == Some(d) {
      var x :| RawMentions(raw, x) && MapDeclaration(table, interfaceShape, x) == Some(d);
      var i :| 0 <= i < |raw| && StatementMentions(raw[i], x);
      MapStatementMentions(table, interfaceShape, raw[i], d);
      assert StatementMentions(m[i], d);
    }
  }

  lemma {:induction false} MapStatementMentions(table: MapTable, interfaceShape: bool, s: RawStatement, d: DeclId)
    ensures StatementMentions(MapStatement(table, interfaceShape, s), d) <==>
      exists x :: StatementMentions(s, x) && MapDeclaration(table, interfaceShape, x) == Some(d)
    decreases s
  {
    if s.TypeStatement? {
      MapTypeMentions(table, interfaceShape, s.typeReference, d);
    }
  }

  /** A reference that mentions no declaration of the table comes out of
      `MapType` unchanged: references to declarations outside the module
      pass through. */
  lemma {:induction false} MapTypeOutsideTable(table: MapTable, interfaceShape: bool, r: TypeRef)
    requires forall x :: Mentions(r, x) ==> x !in table.items
    ensures MapType(table, interfaceShape, r) == r
    decreases r
  {
    match r
    case NullRef =>
    case Ref(form, generics) =>
      var m := MapType(table, interfaceShape, r);
      forall i | 0 <= i < |generics|
        ensures m.genericParameters[i] == generics[i]
      {
        MapTypeOutsideTable(table, interfaceShape, generics[i]);
      }
      match form
      case RawForm(raw) =>
        assert forall x :: RawMentions(raw, x) ==> Mentions(r, x);
        MapRawOutsideTable(table, interfaceShape, raw);
      case NameForm(_) =>
      case TypeForm(DeclType(y)) =>
        assert Mentions(r, y);
      case TypeForm(ArrayType(element)) =>
        assert forall x :: Mentions(element, x) ==> Mentions(r, x);
        MapTypeOutsideTable(table, interfaceShape, element);
      case TypeForm(_) =>
  }

  lemma {:induction false} MapRawOutsideTable(table: MapTable, interfaceShape: bool, raw: seq<RawStatement>)
    requires forall x :: RawMentions(raw, x) ==> x !in table.items
    ensures MapRaw(table, interfaceShape, raw) == raw
    decreases raw
  {
    forall i | 0 <= i < |raw|
      ensures MapStatement(table, interfaceShape, raw[i]) == raw[i]
    {
      MapStatementOutsideTable(table, interfaceShape, raw[i]);
    }
  }

  lemma {:induction false} MapStatementOutsideTable(table: MapTable, interfaceShape: bool, s: RawStatement)
    requires forall x :: StatementMentions(s, x) ==> x !in table.items
    ensures MapStatement(table, interfaceShape, s) == s
    decreases s
  {
    if s.TypeStatement? {
      MapTypeOutsideTable(table, interfaceShape, s.typeReference);
    }
  }
}
