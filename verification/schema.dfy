/**
 The document's schema tree: built from Go types under a mutable guard against self-reference, and
 searched by the dotted paths that rules and field documentation use.
 */
module Schemas {
  import opened Wrappers
  import opened Text

  datatype Kind = StringKind | BoolKind | IntegerKind | FloatKind | InterfaceKind

  /** A Go type, as far as the document tells types apart. Structs are named in a table, so every
      cycle passes through one; `Optional` is the three-state wrapper. */
  datatype GoType =
    | Scalar(kind: Kind)
    | Time
    | Struct(name: string)
    | Pointer(elem: GoType)
    | Sequence(elem: GoType)
    | MapOf(elem: GoType)
    | Optional(elem: GoType)

  datatype StructField = StructField(exported: bool, goName: string, jsonTag: string, typ: GoType)

  type Types = map<string, seq<StructField>>

  datatype SchemaType = StringType | BooleanType | IntegerType | NumberType | ObjectType | ArrayType | AnyType

  datatype Schema = Schema(
    typ: SchemaType,
    dateTime: bool,
    nullable: bool,
    goType: string,
    fields: seq<Field>,
    items: Option<Schema>,
    values: Option<Schema>)

  datatype Field = Field(name: string, optional: bool, schema: Schema)

  function Leaf(typ: SchemaType, nullable: bool): Schema {
    Schema(typ, false, nullable, "", [], None, None)
  }

  /******* Struct tags *******/

  function JsonName(sf: StructField): string {
    var name := Cut(sf.jsonTag, ',').0;
    if name == "" then sf.goName else name
  }

  predicate HasOmitempty(sf: StructField) {
    "omitempty" in Split(Cut(sf.jsonTag, ',').1, ',')
  }

  predicate Shown(sf: StructField) {
    sf.exported && JsonName(sf) != "-"
  }

  /******* Types *******/

  function Size(t: GoType): nat {
    match t
    case Pointer(e) => 1 + Size(e)
    case Sequence(e) => 1 + Size(e)
    case MapOf(e) => 1 + Size(e)
    case Optional(e) => 1 + Size(e)
    case _ => 0
  }

  function StripPointers(t: GoType): (r: GoType)
    ensures !r.Pointer? && Size(r) <= Size(t)
  {
    if t.Pointer? then StripPointers(t.elem) else t
  }

  /** One Optional around the type comes off, then every pointer. An Optional below that is an
      ordinary struct, and all its fields are unexported. */
  function Unwrapped(t: GoType): GoType {
    if t.Optional? then t.elem else t
  }

  function Peeled(t: GoType): (r: GoType)
    ensures Size(r) <= Size(t)
  {
    StripPointers(Unwrapped(t))
  }

  predicate IsNullable(t: GoType) {
    t.Optional? || Unwrapped(t).Pointer?
  }

  function ScalarType(kind: Kind): SchemaType {
    match kind
    case StringKind => StringType
    case BoolKind => BooleanType
    case IntegerKind => IntegerType
    case FloatKind => NumberType
    case InterfaceKind => AnyType
  }

  /******* The schema of a type, given the structs on the path to it *******/

  ghost function Unvisited(types: Types, onPath: set<GoType>): set<string> {
    set n | n in types && Struct(n) !in onPath
  }

  ghost function SchemaOf(types: Types, t: GoType, onPath: set<GoType>): Schema
    decreases Unvisited(types, onPath), 1, Size(t)
  {
    var nullable, p := IsNullable(t), Peeled(t);
    match p
    case Time => Leaf(StringType, nullable).(dateTime := true)
    case Struct(name) =>
      var node := Leaf(ObjectType, nullable).(goType := name);
      if p in onPath || name !in types then node
      else
        assert name in Unvisited(types, onPath) && name !in Unvisited(types, onPath + {p});
        node.(fields := FieldSchemas(types, types[name], onPath + {p}))
    case Optional(_) => Leaf(ObjectType, nullable)
    case Sequence(elem) => Leaf(ArrayType, nullable).(items := Some(SchemaOf(types, elem, onPath)))
    case MapOf(elem) => Leaf(ObjectType, nullable).(values := Some(SchemaOf(types, elem, onPath)))
    case Scalar(kind) => Leaf(ScalarType(kind), nullable)
    case Pointer(_) => Leaf(AnyType, nullable)
  }

  ghost function FieldSchema(types: Types, sf: StructField, onPath: set<GoType>): Field
    decreases Unvisited(types, onPath), 2, 0
  {
    Field(JsonName(sf), HasOmitempty(sf) || sf.typ.Optional?, SchemaOf(types, sf.typ, onPath))
  }

  ghost function FieldSchemas(types: Types, fields: seq<StructField>, onPath: set<GoType>): seq<Field>
    decreases Unvisited(types, onPath), 2, |fields|
  {
    if fields == [] then []
    else
      var last := fields[|fields| - 1];
      FieldSchemas(types, fields[..|fields| - 1], onPath)
      + if Shown(last) then [FieldSchema(types, last, onPath)] else []
  }

  /******* What a field's tag and type say *******/

  /** A json tag: a name, possibly none, and options behind it. */
  function TagText(name: string, options: seq<string>): string {
    Joined([name] + options, ',')
  }

  /** The tag's name if it has one, else the field's; "-" hides it, and so does not being exported. */
  lemma TagReadsBack(sf: StructField, name: string, options: seq<string>)
    requires sf.jsonTag == TagText(name, options)
    requires ',' !in name && forall o :: o in options ==> ',' !in o
    ensures JsonName(sf) == if name == "" then sf.goName else name
    ensures HasOmitempty(sf) <==> "omitempty" in options
    ensures Shown(sf) <==> sf.exported && (if name == "" then sf.goName != "-" else name != "-")
  {
    if options == [] {
      CutWithoutSeparator(name, ',');
    } else {
      assert ([name] + options)[1..] == options;
      CutAtFirst(name, Joined(options, ','), ',');
      JoinedSplits(options, ',');
    }
  }

  /** An Optional field need not be there, nor one marked omitempty; the field has the schema of its type. */
  lemma FieldFollowsItsTag(types: Types, sf: StructField, onPath: set<GoType>, name: string, options: seq<string>)
    requires sf.jsonTag == TagText(name, options)
    requires ',' !in name && forall o :: o in options ==> ',' !in o
    ensures FieldSchema(types, sf, onPath) ==
            Field(if name == "" then sf.goName else name,
                  "omitempty" in options || sf.typ.Optional?,
                  SchemaOf(types, sf.typ, onPath))
  {
    TagReadsBack(sf, name, options);
  }

  /** A Pointer or an Optional around a type says that null may stand for it, and nothing else, except
      that an Optional below another wrapper is an object without fields. */
  lemma WrappersOnlyAddNull(types: Types, t: GoType, onPath: set<GoType>)
    ensures SchemaOf(types, Pointer(t), onPath) ==
            if StripPointers(t).Optional? then Schema(ObjectType, false, true, "", [], None, None)
            else SchemaOf(types, t, onPath).(nullable := true)
    ensures SchemaOf(types, Optional(t), onPath) ==
            if StripPointers(t).Optional? then Schema(ObjectType, false, true, "", [], None, None)
            else SchemaOf(types, t, onPath).(nullable := true)
  {
  }

  /** What each unwrapped type is in the document. */
  lemma EachTypeIs(types: Types, t: GoType, onPath: set<GoType>)
    ensures SchemaOf(types, Scalar(StringKind), onPath) == Schema(StringType, false, false, "", [], None, None)
    ensures SchemaOf(types, Scalar(BoolKind), onPath) == Schema(BooleanType, false, false, "", [], None, None)
    ensures SchemaOf(types, Scalar(IntegerKind), onPath) == Schema(IntegerType, false, false, "", [], None, None)
    ensures SchemaOf(types, Scalar(FloatKind), onPath) == Schema(NumberType, false, false, "", [], None, None)
    ensures SchemaOf(types, Scalar(InterfaceKind), onPath) == Schema(AnyType, false, false, "", [], None, None)
    ensures SchemaOf(types, Time, onPath) == Schema(StringType, true, false, "", [], None, None)
    ensures SchemaOf(types, Sequence(t), onPath) ==
            Schema(ArrayType, false, false, "", [], Some(SchemaOf(types, t, onPath)), None)
    ensures SchemaOf(types, MapOf(t), onPath) ==
            Schema(ObjectType, false, false, "", [], None, Some(SchemaOf(types, t, onPath)))
  {
  }

  /** A struct is an object named after it, with a field for each of its shown fields in the order they
      are declared, unless it stands below itself. */
  lemma StructIs(types: Types, name: string, onPath: set<GoType>)
    ensures
      var node := SchemaOf(types, Struct(name), onPath);
      && node == Schema(ObjectType, false, false, name, node.fields, None, None)
      && node.fields == if name !in types || Struct(name) in onPath then []
                        else FieldSchemas(types, types[name], onPath + {Struct(name)})
  {
  }

  /** Each declared field contributes on its own and in its place: a shown one a field, any other nothing. */
  lemma {:induction false} EachFieldContributes(
    types: Types, before: seq<StructField>, sf: StructField, after: seq<StructField>, onPath: set<GoType>)
    ensures FieldSchemas(types, before + [sf] + after, onPath) ==
            FieldSchemas(types, before, onPath)
            + (if sf.exported && JsonName(sf) != "-" then [FieldSchema(types, sf, onPath)] else [])
            + FieldSchemas(types, after, onPath)
    decreases |after|
  {
    var all := before + [sf] + after;
    if after == [] {
      assert all[..|all| - 1] == before && all[|all| - 1] == sf;
    } else {
      var rest, last := after[..|after| - 1], after[|after| - 1];
      assert all[..|all| - 1] == before + [sf] + rest && all[|all| - 1] == last;
      EachFieldContributes(types, before, sf, rest, onPath);
    }
  }

  /** Builds schemas with one set of the structs being walked, added to on the way in and removed
      from on the way out. */
  class Builder {
    const types: Types
    var visiting: set<GoType>

    constructor (types: Types)
      ensures this.types == types && visiting == {}
    {
      this.types, visiting := types, {};
    }

    /** The set comes back as it was, so a type that merely occurs twice is expanded twice. */
    method BuildSchema(t: GoType) returns (s: Schema)
      modifies this
      ensures visiting == old(visiting)
      ensures s == SchemaOf(types, t, old(visiting))
      decreases Unvisited(types, visiting), 1, Size(t)
    {
      var nullable, p := false, t;
      if p.Optional? {
        nullable, p := true, p.elem;
      }
      while p.Pointer?
        invariant StripPointers(p) == Peeled(t) && Size(p) <= Size(t)
        invariant p.Pointer? || nullable == IsNullable(t)
        invariant nullable ==> IsNullable(t)
        invariant p.Pointer? ==> IsNullable(t)
        decreases p
      {
        nullable, p := true, p.elem;
      }
      match p
      case Time =>
        s := Leaf(StringType, nullable).(dateTime := true);
      case Struct(name) =>
        s := Leaf(ObjectType, nullable).(goType := name);
        if p in visiting {
          return;
        }
        ghost var before := visiting;
        visiting := visiting + {p};
        assert name in types ==> name in Unvisited(types, before) && name !in Unvisited(types, visiting);
        if name in types {
          var fields := StructFields(types[name]);
          s := s.(fields := fields);
        }
        visiting := visiting - {p};
      case Optional(_) =>
        s := Leaf(ObjectType, nullable);
      case Sequence(elem) =>
        var items := BuildSchema(elem);
        s := Leaf(ArrayType, nullable).(items := Some(items));
      case MapOf(elem) =>
        var values := BuildSchema(elem);
        s := Leaf(ObjectType, nullable).(values := Some(values));
      case Scalar(kind) =>
        s := Leaf(ScalarType(kind), nullable);
    }

    method StructFields(declared: seq<StructField>) returns (fields: seq<Field>)
      modifies this
      ensures visiting == old(visiting)
      ensures fields == FieldSchemas(types, declared, old(visiting))
      decreases Unvisited(types, visiting), 2
    {
      fields := [];
      for i := 0 to |declared|
        invariant visiting == old(visiting)
        invariant fields == FieldSchemas(types, declared[..i], visiting)
      {
        var sf := declared[i];
        assert declared[..i + 1][..i] == declared[..i];
        if Shown(sf) {
          var schema := BuildSchema(sf.typ);
          fields := fields + [Field(JsonName(sf), HasOmitempty(sf) || sf.typ.Optional?, schema)];
        }
      }
      assert declared[..|declared|] == declared;
    }
  }

  /******* The guard only cuts cycles *******/

  /** The struct a type comes down to, through maps too. */
  function InnerStruct(t: GoType): Option<string>
    decreases Size(t)
  {
    match Peeled(t)
    case Struct(name) => Some(name)
    case Sequence(elem) => InnerStruct(elem)
    case MapOf(elem) => InnerStruct(elem)
    case _ => None
  }

  function Height(types: Types, rank: map<string, nat>, t: GoType): nat {
    match InnerStruct(t)
    case Some(name) => if name in types && name in rank then 1 + rank[name] else 0
    case None => 0
  }

  /** No struct contains itself: `rank` orders them. */
  ghost predicate NonRecursive(types: Types, rank: map<string, nat>) {
    types.Keys <= rank.Keys
    && forall n, sf :: n in types && sf in types[n] && Shown(sf) ==> Height(types, rank, sf.typ) <= rank[n]
  }

  ghost predicate Above(types: Types, rank: map<string, nat>, height: nat, onPath: set<GoType>) {
    forall g :: g in onPath && g.Struct? && g.name in types && g.name in rank ==> height <= rank[g.name]
  }

  /** Where no struct contains itself the guard cuts nothing: a type looks the same wherever it occurs. */
  lemma {:induction false} OccurrencesExpandAlike(
    types: Types, rank: map<string, nat>, t: GoType, a: set<GoType>, b: set<GoType>)
    requires NonRecursive(types, rank)
    requires Above(types, rank, Height(types, rank, t), a) && Above(types, rank, Height(types, rank, t), b)
    ensures SchemaOf(types, t, a) == SchemaOf(types, t, b)
    decreases Height(types, rank, t), 1, Size(t)
  {
    var p := Peeled(t);
    match p
    case Struct(name) =>
      if name in types {
        assert Height(types, rank, t) == 1 + rank[name];
        assert p !in a && p !in b;
        FieldsExpandAlike(types, rank, name, types[name], a + {p}, b + {p});
      }
    case Sequence(elem) => OccurrencesExpandAlike(types, rank, elem, a, b);
    case MapOf(elem) => OccurrencesExpandAlike(types, rank, elem, a, b);
    case _ =>
  }

  lemma {:induction false} FieldsExpandAlike(
    types: Types, rank: map<string, nat>, name: string, fields: seq<StructField>, a: set<GoType>, b: set<GoType>)
    requires NonRecursive(types, rank) && name in types && forall sf :: sf in fields ==> sf in types[name]
    requires Above(types, rank, rank[name], a) && Above(types, rank, rank[name], b)
    ensures FieldSchemas(types, fields, a) == FieldSchemas(types, fields, b)
    decreases 1 + rank[name], 0, |fields|
  {
    if fields != [] {
      var last := fields[|fields| - 1];
      FieldsExpandAlike(types, rank, name, fields[..|fields| - 1], a, b);
      if Shown(last) {
        OccurrencesExpandAlike(types, rank, last.typ, a, b);
      }
    }
  }
}
