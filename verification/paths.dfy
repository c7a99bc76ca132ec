/**
 The dotted paths of nested fields ("address.city", "items[].id"): printed by the walk that makes
 examples, and resolved against the schema tree by the reader of rules.
 */
module Paths {
  import opened Wrappers
  import opened Text
  import opened Schemas

  const ARRAY_SUFFIX := "[]"

  /** One step of a path: a field name and how many array levels below it. */
  datatype Segment = Segment(name: string, arrays: nat)

  /******* Reading a path *******/

  predicate EndsInArray(s: string) {
    2 <= |s| && s[|s| - 2..] == ARRAY_SUFFIX
  }

  function SegmentOf(s: string): Segment {
    if EndsInArray(s) then
      var inner := SegmentOf(s[..|s| - 2]);
      Segment(inner.name, inner.arrays + 1)
    else Segment(s, 0)
  }

  function SegmentsOf(parts: seq<string>): seq<Segment> {
    if parts == [] then [] else [SegmentOf(parts[0])] + SegmentsOf(parts[1..])
  }

  function FieldNamed(fields: seq<Field>, name: string): Option<Field> {
    if fields == [] then None
    else if fields[0].name == name then Some(fields[0])
    else FieldNamed(fields[1..], name)
  }

  function Below(schema: Option<Schema>, arrays: nat): Option<Schema> {
    if arrays == 0 || schema.None? then schema else Below(schema.value.items, arrays - 1)
  }

  /** The field a path leads to; array levels after the last name do not matter. */
  function Find(schema: Schema, segments: seq<Segment>): Option<Field>
    decreases |segments|
  {
    if segments == [] then None
    else
      var field := FieldNamed(schema.fields, segments[0].name);
      if field.None? || |segments| == 1 then field
      else
        var below := Below(Some(field.value.schema), segments[0].arrays);
        if below.None? then None else Find(below.value, segments[1..])
  }

  function Found(schema: Schema, path: string): Option<Field> {
    if path == "" then None else Find(schema, SegmentsOf(Split(path, '.')))
  }

  method SplitArraySuffix(seg: string) returns (name: string, arrays: nat)
    ensures Segment(name, arrays) == SegmentOf(seg)
  {
    name, arrays := seg, 0;
    while EndsInArray(name)
      invariant SegmentOf(seg) == Segment(SegmentOf(name).name, SegmentOf(name).arrays + arrays)
      decreases |name|
    {
      name, arrays := name[..|name| - 2], arrays + 1;
    }
  }

  method LookUp(fields: seq<Field>, name: string) returns (r: Option<Field>)
    ensures r == FieldNamed(fields, name)
    ensures r.None? ==> forall i :: 0 <= i < |fields| ==> fields[i].name != name
    ensures r.Some? ==> exists i :: 0 <= i < |fields| && fields[i] == r.value && fields[i].name == name
                                    && forall j :: 0 <= j < i ==> fields[j].name != name
  {
    for i := 0 to |fields|
      invariant FieldNamed(fields, name) == FieldNamed(fields[i..], name)
      invariant forall j :: 0 <= j < i ==> fields[j].name != name
    {
      if fields[i].name == name {
        return Some(fields[i]);
      }
      assert fields[i..][1..] == fields[i + 1..];
    }
    r := None;
  }

  method FindField(schema: Option<Schema>, path: string) returns (r: Option<Field>)
    ensures r == if schema.None? then None else Found(schema.value, path)
  {
    if schema.None? || path == "" {
      return None;
    }
    var cur, segs := schema, Split(path, '.');
    ghost var result := Found(schema.value, path);
    for i := 0 to |segs|
      invariant cur.Some?
      invariant result == Find(cur.value, SegmentsOf(segs[i..]))
    {
      assert segs[i..][1..] == segs[i + 1..];
      var name, arrays := SplitArraySuffix(segs[i]);
      var f := LookUp(cur.value.fields, name);
      SegmentsCount(segs[i..]);
      if f.None? {
        return None;
      }
      if i == |segs| - 1 {
        return f;
      }
      cur := Some(f.value.schema);
      ghost var target := Below(cur, arrays);
      while arrays > 0
        invariant cur.Some? && target == Below(cur, arrays)
      {
        if cur.value.items.None? {
          return None;
        }
        cur, arrays := cur.value.items, arrays - 1;
      }
    }
    assert segs[|segs|..] == [];
    r := None;
  }

  lemma SegmentsCount(parts: seq<string>)
    ensures |SegmentsOf(parts)| == |parts|
  {
  }

  /******* Printing a path *******/

  function Arrays(n: nat): string {
    if n == 0 then "" else Arrays(n - 1) + ARRAY_SUFFIX
  }

  function SegmentText(s: Segment): string {
    s.name + Arrays(s.arrays)
  }

  function PathText(segments: seq<Segment>): string {
    if segments == [] then ""
    else if |segments| == 1 then SegmentText(segments[0])
    else PathText(segments[..|segments| - 1]) + "." + SegmentText(segments[|segments| - 1])
  }

  predicate PlainName(name: string) {
    '.' !in name && !EndsInArray(name)
  }

  lemma {:induction false} ArraysHaveNoDot(n: nat)
    ensures '.' !in Arrays(n)
  {
    if n > 0 {
      ArraysHaveNoDot(n - 1);
    }
  }

  lemma {:induction false} SegmentReadsBack(s: Segment)
    requires PlainName(s.name)
    ensures SegmentOf(SegmentText(s)) == s
    ensures '.' !in SegmentText(s)
    decreases s.arrays
  {
    ArraysHaveNoDot(s.arrays);
    var text := SegmentText(s);
    if s.arrays == 0 {
      assert text == s.name;
    } else {
      var inner := Segment(s.name, s.arrays - 1);
      assert text == SegmentText(inner) + ARRAY_SUFFIX;
      assert text[|text| - 2..] == ARRAY_SUFFIX && text[..|text| - 2] == SegmentText(inner);
      SegmentReadsBack(inner);
    }
  }

  lemma {:induction false} SegmentsAppend(parts: seq<string>, last: string)
    ensures SegmentsOf(parts + [last]) == SegmentsOf(parts) + [SegmentOf(last)]
  {
    if parts == [] {
      assert [last][1..] == [];
    } else {
      assert (parts + [last])[1..] == parts[1..] + [last];
      SegmentsAppend(parts[1..], last);
    }
  }

  /** A printed path reads back as the steps it was printed from. */
  lemma {:induction false} PathReadsBack(segments: seq<Segment>)
    requires segments != [] && forall s :: s in segments ==> PlainName(s.name)
    ensures SegmentsOf(Split(PathText(segments), '.')) == segments
    decreases |segments|
  {
    var last := segments[|segments| - 1];
    assert last in segments;
    SegmentReadsBack(last);
    if |segments| == 1 {
      SplitWithoutSeparator(SegmentText(last), '.');
      assert segments == [last];
    } else {
      var before := segments[..|segments| - 1];
      PathReadsBack(before);
      SplitAppends(PathText(before), SegmentText(last), '.');
      SegmentsAppend(Split(PathText(before), '.'), SegmentText(last));
      assert segments == before + [last];
    }
  }

  /******* The walk that makes examples *******/

  /** The struct a type comes down to, through Optionals, pointers and arrays but not maps. */
  function LeafStruct(t: GoType): Option<string>
    decreases Size(t)
  {
    match Peeled(t)
    case Struct(name) => Some(name)
    case Sequence(elem) => LeafStruct(elem)
    case _ => None
  }

  function Rank(types: Types, rank: map<string, nat>, t: GoType): nat {
    match LeafStruct(t)
    case Some(name) => if name in types && name in rank then 1 + rank[name] else 0
    case None => 0
  }

  /** No struct contains itself except through a map: `rank` orders them. */
  ghost predicate Acyclic(types: Types, rank: map<string, nat>) {
    types.Keys <= rank.Keys
    && forall n, sf :: n in types && sf in types[n] && Shown(sf) ==> Rank(types, rank, sf.typ) <= rank[n]
  }

  /** A value visited: its path as printed and as steps, the field it belongs to, and the structs
      around that field. */
  datatype Visit = Visit(path: string, segments: seq<Segment>, field: StructField, within: set<GoType>)

  function Deepened(segments: seq<Segment>): seq<Segment> {
    if segments == [] then [Segment("", 1)]
    else
      var last := segments[|segments| - 1];
      segments[..|segments| - 1] + [Segment(last.name, last.arrays + 1)]
  }

  function Nested(path: string, name: string): string {
    if path != "" then path + "." + name else name
  }

  /** Every value the walk reaches below `t`, itself included unless it is the root. */
  ghost function Visits(
    types: Types, rank: map<string, nat>, t: GoType, at: Option<StructField>,
    path: string, segments: seq<Segment>, within: set<GoType>): set<Visit>
    requires Acyclic(types, rank)
    decreases Rank(types, rank, t), 1, Size(t)
  {
    var here := if at.Some? then {Visit(path, segments, at.value, within)} else {};
    match Peeled(t)
    case Sequence(elem) => here + Visits(types, rank, elem, at, path + ARRAY_SUFFIX, Deepened(segments), within)
    case Struct(name) =>
      if name !in types then here
      else here + FieldVisits(types, rank, name, types[name], path, segments, within + {Struct(name)})
    case _ => here
  }

  ghost function FieldVisits(
    types: Types, rank: map<string, nat>, name: string, fields: seq<StructField>,
    path: string, segments: seq<Segment>, within: set<GoType>): set<Visit>
    requires Acyclic(types, rank) && name in types && forall sf :: sf in fields ==> sf in types[name]
    decreases 1 + rank[name], 0, |fields|
  {
    if fields == [] then {}
    else
      var sf, rest := fields[0], fields[1..];
      (if Shown(sf)
       then Visits(types, rank, sf.typ, Some(sf), Nested(path, JsonName(sf)), segments + [Segment(JsonName(sf), 0)], within)
       else {})
      + FieldVisits(types, rank, name, rest, path, segments, within)
  }

  /** JSON names are there, plain, and unique in their struct. */
  ghost predicate WellNamed(types: Types) {
    forall n :: n in types ==>
      && (forall sf :: sf in types[n] && Shown(sf) ==> JsonName(sf) != "" && PlainName(JsonName(sf)))
      && DistinctNames(types[n])
  }

  ghost predicate DistinctNames(fields: seq<StructField>) {
    forall i, j :: 0 <= i < j < |fields| && Shown(fields[i]) && Shown(fields[j]) ==>
      JsonName(fields[i]) != JsonName(fields[j])
  }

  /******* Printed paths are what they were printed from *******/

  predicate Readable(s: Segment) {
    PlainName(s.name) && (s.name != "" || s.arrays > 0)
  }

  predicate Spells(path: string, segments: seq<Segment>) {
    path == PathText(segments) && (forall s :: s in segments ==> Readable(s)) && (path != "" <==> segments != [])
  }

  function FirstName(segments: seq<Segment>): string {
    if segments == [] then "" else segments[0].name
  }

  lemma SpellsDeepened(path: string, segments: seq<Segment>)
    requires Spells(path, segments)
    ensures Spells(path + ARRAY_SUFFIX, Deepened(segments)) && Deepened(segments) != []
    ensures Deepened(segments)[0].name == FirstName(segments)
  {
    var deeper := Deepened(segments);
    if segments == [] {
      assert Arrays(1) == Arrays(0) + ARRAY_SUFFIX;
      assert SegmentText(deeper[0]) == path + ARRAY_SUFFIX;
      assert !EndsInArray("");
    } else {
      var last := segments[|segments| - 1];
      assert last in segments;
      assert deeper[..|deeper| - 1] == segments[..|segments| - 1];
      assert SegmentText(deeper[|deeper| - 1]) == SegmentText(last) + ARRAY_SUFFIX;
      forall s | s in deeper
        ensures Readable(s)
      {
        if s !in segments {
          assert s == deeper[|deeper| - 1];
        }
      }
    }
  }

  lemma SpellsNested(path: string, segments: seq<Segment>, name: string)
    requires Spells(path, segments) && name != "" && PlainName(name)
    ensures Spells(Nested(path, name), segments + [Segment(name, 0)])
    ensures segments != [] ==> FirstName(segments + [Segment(name, 0)]) == FirstName(segments)
  {
    var longer := segments + [Segment(name, 0)];
    assert longer[..|longer| - 1] == segments;
    assert SegmentText(longer[|longer| - 1]) == name;
  }

  lemma {:induction false} VisitsSpell(
    types: Types, rank: map<string, nat>, t: GoType, at: Option<StructField>,
    path: string, segments: seq<Segment>, within: set<GoType>, v: Visit)
    requires Acyclic(types, rank) && WellNamed(types) && Spells(path, segments)
    requires v in Visits(types, rank, t, at, path, segments, within)
    requires at.Some? ==> segments != []
    ensures Spells(v.path, v.segments) && v.segments != []
    ensures segments != [] || !Peeled(t).Struct? ==> FirstName(v.segments) == FirstName(segments)
    decreases Rank(types, rank, t), 1, Size(t)
  {
    if at.Some? && v == Visit(path, segments, at.value, within) {
      return;
    }
    match Peeled(t)
    case Sequence(elem) =>
      SpellsDeepened(path, segments);
      VisitsSpell(types, rank, elem, at, path + ARRAY_SUFFIX, Deepened(segments), within, v);
    case Struct(name) =>
      FieldVisitsSpell(types, rank, name, types[name], path, segments, within + {Struct(name)}, v);
    case _ =>
  }

  lemma {:induction false} FieldVisitsSpell(
    types: Types, rank: map<string, nat>, name: string, fields: seq<StructField>,
    path: string, segments: seq<Segment>, within: set<GoType>, v: Visit)
    requires Acyclic(types, rank) && WellNamed(types) && Spells(path, segments)
    requires name in types && forall sf :: sf in fields ==> sf in types[name]
    requires v in FieldVisits(types, rank, name, fields, path, segments, within)
    ensures Spells(v.path, v.segments) && v.segments != []
    ensures segments != [] ==> FirstName(v.segments) == FirstName(segments)
    decreases 1 + rank[name], 0, |fields|
  {
    var sf := fields[0];
    if v in FieldVisits(types, rank, name, fields[1..], path, segments, within) {
      FieldVisitsSpell(types, rank, name, fields[1..], path, segments, within, v);
    } else {
      SpellsNested(path, segments, JsonName(sf));
      VisitsSpell(types, rank, sf.typ, Some(sf), Nested(path, JsonName(sf)), segments + [Segment(JsonName(sf), 0)], within, v);
    }
  }

  /******* And lead to the field they were printed for *******/

  /** The schema node all of `segments` lead to. */
  function Follow(schema: Schema, segments: seq<Segment>): Option<Schema>
    decreases |segments|
  {
    if segments == [] then Some(schema)
    else
      var field := FieldNamed(schema.fields, segments[0].name);
      if field.None? then None
      else
        var below := Below(Some(field.value.schema), segments[0].arrays);
        if below.None? then None else Follow(below.value, segments[1..])
  }

  function Step(node: Option<Schema>, s: Segment): Option<Schema> {
    if node.None? then None
    else
      var field := FieldNamed(node.value.fields, s.name);
      if field.None? then None else Below(Some(field.value.schema), s.arrays)
  }

  lemma {:induction false} FollowAppends(schema: Schema, segments: seq<Segment>, last: Segment)
    ensures Follow(schema, segments + [last]) == Step(Follow(schema, segments), last)
    ensures Follow(schema, segments).Some? ==>
              Find(schema, segments + [last]) == FieldNamed(Follow(schema, segments).value.fields, last.name)
    decreases |segments|
  {
    if segments == [] {
      assert [last][1..] == [];
    } else {
      assert (segments + [last])[1..] == segments[1..] + [last];
      var field := FieldNamed(schema.fields, segments[0].name);
      if field.Some? {
        var below := Below(Some(field.value.schema), segments[0].arrays);
        if below.Some? {
          FollowAppends(below.value, segments[1..], last);
        }
      }
    }
  }

  lemma {:induction false} BelowOneMore(schema: Option<Schema>, arrays: nat)
    ensures Below(schema, arrays + 1) ==
            var node := Below(schema, arrays); if node.None? then None else node.value.items
    decreases arrays
  {
    if arrays > 0 && schema.Some? {
      BelowOneMore(schema.value.items, arrays - 1);
    }
  }

  /** The same steps, stopping at the field itself. */
  function AtField(segments: seq<Segment>): seq<Segment>
    requires segments != []
  {
    segments[..|segments| - 1] + [Segment(segments[|segments| - 1].name, 0)]
  }

  lemma LastOf(segments: seq<Segment>) returns (before: seq<Segment>, last: Segment)
    requires segments != []
    ensures segments == before + [last]
    ensures AtField(segments) == before + [Segment(last.name, 0)]
    ensures Deepened(segments) == before + [Segment(last.name, last.arrays + 1)]
    ensures last == segments[|segments| - 1]
  {
    before, last := segments[..|segments| - 1], segments[|segments| - 1];
  }

  /** One more array level under the last name: a level further down, at the same field. */
  lemma DeepenedFollows(root: Schema, segments: seq<Segment>)
    requires segments != [] && Follow(root, segments).Some? && Follow(root, segments).value.items.Some?
    ensures Follow(root, Deepened(segments)) == Follow(root, segments).value.items
    ensures Find(root, Deepened(segments)) == Find(root, segments)
  {
    var before, last := LastOf(segments);
    FollowAppends(root, before, last);
    FollowAppends(root, before, Segment(last.name, last.arrays + 1));
    var field := FieldNamed(Follow(root, before).value.fields, last.name);
    BelowOneMore(Some(field.value.schema), last.arrays);
  }

  predicate ShownNamed(fields: seq<StructField>, name: string) {
    exists k :: 0 <= k < |fields| && Shown(fields[k]) && JsonName(fields[k]) == name
  }

  lemma {:induction false} FieldNamedLast(fields: seq<Field>, last: Field, name: string)
    ensures FieldNamed(fields + [last], name) ==
            if FieldNamed(fields, name).Some? then FieldNamed(fields, name)
            else if last.name == name then Some(last) else None
    decreases |fields|
  {
    if fields == [] {
      assert [last][1..] == [];
    } else {
      assert (fields + [last])[1..] == fields[1..] + [last];
      FieldNamedLast(fields[1..], last, name);
    }
  }

  lemma LastNameIsNew(fields: seq<StructField>)
    requires fields != [] && DistinctNames(fields)
    ensures DistinctNames(fields[..|fields| - 1])
    ensures Shown(fields[|fields| - 1]) ==> !ShownNamed(fields[..|fields| - 1], JsonName(fields[|fields| - 1]))
  {
    var before := fields[..|fields| - 1];
    forall i, j | 0 <= i < j < |before| && Shown(before[i]) && Shown(before[j])
      ensures JsonName(before[i]) != JsonName(before[j])
    {
      assert before[i] == fields[i] && before[j] == fields[j];
    }
    forall i | 0 <= i < |before| && Shown(before[i]) && Shown(fields[|fields| - 1])
      ensures JsonName(before[i]) != JsonName(fields[|fields| - 1])
    {
      assert before[i] == fields[i];
    }
  }

  /** Among distinct names, a struct field's schema is the one found under its name. */
  lemma {:induction false} FieldIsFound(types: Types, fields: seq<StructField>, onPath: set<GoType>, k: nat)
    requires k < |fields| && Shown(fields[k]) && DistinctNames(fields)
    ensures FieldNamed(FieldSchemas(types, fields, onPath), JsonName(fields[k])) == Some(FieldSchema(types, fields[k], onPath))
    decreases |fields|
  {
    var before, last := fields[..|fields| - 1], fields[|fields| - 1];
    var name := JsonName(fields[k]);
    LastNameIsNew(fields);
    if k < |before| {
      assert before[k] == fields[k];
      FieldIsFound(types, before, onPath, k);
    } else {
      NotFoundEarlier(types, before, onPath, name);
    }
    if Shown(last) {
      FieldNamedLast(FieldSchemas(types, before, onPath), FieldSchema(types, last, onPath), name);
    } else {
      assert FieldSchemas(types, before, onPath) + [] == FieldSchemas(types, before, onPath);
    }
  }

  lemma {:induction false} NotFoundEarlier(types: Types, fields: seq<StructField>, onPath: set<GoType>, name: string)
    requires !ShownNamed(fields, name)
    ensures FieldNamed(FieldSchemas(types, fields, onPath), name).None?
    decreases |fields|
  {
    if fields != [] {
      var before, last := fields[..|fields| - 1], fields[|fields| - 1];
      forall k | 0 <= k < |before| && Shown(before[k])
        ensures JsonName(before[k]) != name
      {
        assert fields[k] == before[k];
      }
      NotFoundEarlier(types, before, onPath, name);
      if Shown(last) {
        assert fields[|fields| - 1] == last;
        FieldNamedLast(FieldSchemas(types, before, onPath), FieldSchema(types, last, onPath), name);
      } else {
        assert FieldSchemas(types, before, onPath) + [] == FieldSchemas(types, before, onPath);
      }
    }
  }

  /** The structs around a value all outrank the one it comes down to. */
  ghost predicate Outranked(types: Types, rank: map<string, nat>, t: GoType, within: set<GoType>) {
    forall g :: g in within ==> g.Struct? && g.name in types && g.name in rank && Rank(types, rank, t) <= rank[g.name]
  }

  lemma {:induction false} VisitsResolve(
    types: Types, rank: map<string, nat>, root: Schema, t: GoType, at: Option<StructField>,
    path: string, segments: seq<Segment>, within: set<GoType>, v: Visit)
    requires Acyclic(types, rank) && WellNamed(types) && Outranked(types, rank, t, within)
    requires Follow(root, segments) == Some(SchemaOf(types, t, within))
    requires if at.Some? then segments != [] && Find(root, segments) == Some(FieldSchema(types, at.value, within))
             else Peeled(t).Struct?
    requires v in Visits(types, rank, t, at, path, segments, within)
    ensures Find(root, v.segments) == Some(FieldSchema(types, v.field, v.within))
    decreases Rank(types, rank, t), 1, Size(t)
  {
    if at.Some? && v == Visit(path, segments, at.value, within) {
      return;
    }
    match Peeled(t)
    case Sequence(elem) =>
      DeepenedFollows(root, segments);
      VisitsResolve(types, rank, root, elem, at, path + ARRAY_SUFFIX, Deepened(segments), within, v);
    case Struct(name) =>
      assert Rank(types, rank, t) == 1 + rank[name];
      assert Struct(name) !in within;
      assert types[name][..] == types[name];
      FieldVisitsResolve(types, rank, root, name, 0, path, segments, within + {Struct(name)}, v);
    case _ =>
  }

  lemma {:induction false} FieldVisitsResolve(
    types: Types, rank: map<string, nat>, root: Schema, name: string, from: nat,
    path: string, segments: seq<Segment>, within: set<GoType>, v: Visit)
    requires Acyclic(types, rank) && WellNamed(types) && name in types && from <= |types[name]|
    requires forall g :: g in within ==> g.Struct? && g.name in types && g.name in rank && rank[name] <= rank[g.name]
    requires Follow(root, segments).Some?
    requires Follow(root, segments).value.fields == FieldSchemas(types, types[name], within)
    requires v in FieldVisits(types, rank, name, types[name][from..], path, segments, within)
    ensures Find(root, v.segments) == Some(FieldSchema(types, v.field, v.within))
    decreases 1 + rank[name], 0, |types[name]| - from
  {
    var fields := types[name][from..];
    var sf := fields[0];
    assert sf == types[name][from] && fields[1..] == types[name][from + 1..];
    if v in FieldVisits(types, rank, name, fields[1..], path, segments, within) {
      FieldVisitsResolve(types, rank, root, name, from + 1, path, segments, within, v);
    } else {
      var last := Segment(JsonName(sf), 0);
      FieldIsFound(types, types[name], within, from);
      FollowAppends(root, segments, last);
      VisitsResolve(types, rank, root, sf.typ, Some(sf), Nested(path, JsonName(sf)), segments + [last], within, v);
    }
  }

  lemma FieldsUnnamed(types: Types, t: GoType)
    requires !Peeled(t).Struct?
    ensures SchemaOf(types, t, {}).fields == []
  {
  }

  /** For a struct, every path the example walk prints leads the schema reader to the field it was
      printed for. For anything else none does: a document whose root is an array prints its fields
      under "[]", which names no field. */
  lemma PrintedPathsResolve(types: Types, rank: map<string, nat>, root: GoType, v: Visit)
    requires Acyclic(types, rank) && WellNamed(types)
    requires v in Visits(types, rank, root, None, "", [], {})
    ensures Found(SchemaOf(types, root, {}), v.path) ==
            if Peeled(root).Struct? then Some(FieldSchema(types, v.field, v.within)) else None
  {
    var schema := SchemaOf(types, root, {});
    VisitsSpell(types, rank, root, None, "", [], {}, v);
    PathReadsBack(v.segments);
    if Peeled(root).Struct? {
      VisitsResolve(types, rank, schema, root, None, "", [], {}, v);
    } else {
      FieldsUnnamed(types, root);
    }
  }

  ghost function FieldVisit(types: Types, rank: map<string, nat>, sf: StructField,
    path: string, segments: seq<Segment>, within: set<GoType>): set<Visit>
    requires Acyclic(types, rank)
  {
    Visits(types, rank, sf.typ, Some(sf), Nested(path, JsonName(sf)), segments + [Segment(JsonName(sf), 0)], within)
  }

  lemma {:induction false} FieldIsVisited(
    types: Types, rank: map<string, nat>, name: string, fields: seq<StructField>, k: nat,
    path: string, segments: seq<Segment>, within: set<GoType>)
    requires Acyclic(types, rank) && name in types && forall sf :: sf in fields ==> sf in types[name]
    requires k < |fields| && Shown(fields[k])
    ensures FieldVisit(types, rank, fields[k], path, segments, within)
            <= FieldVisits(types, rank, name, fields, path, segments, within)
    ensures Visit(Nested(path, JsonName(fields[k])), segments + [Segment(JsonName(fields[k]), 0)], fields[k], within)
            in FieldVisits(types, rank, name, fields, path, segments, within)
    decreases k
  {
    if k > 0 {
      FieldIsVisited(types, rank, name, fields[1..], k - 1, path, segments, within);
    }
  }

  /** For a list of structs every field is lost this way: the example reads the constraints of
      "[].name", the schema finds no such field. */
  lemma RootArrayFieldsAreLost(types: Types, rank: map<string, nat>, name: string, k: nat) returns (v: Visit)
    requires Acyclic(types, rank) && WellNamed(types) && name in types
    requires k < |types[name]| && Shown(types[name][k])
    ensures v in Visits(types, rank, Sequence(Struct(name)), None, "", [], {})
    ensures v.path == "[]." + JsonName(types[name][k]) && v.field == types[name][k]
    ensures Found(SchemaOf(types, Sequence(Struct(name)), {}), v.path) == None
  {
    var sf := types[name][k];
    var segments := Deepened([]);
    v := Visit(Nested("[]", JsonName(sf)), segments + [Segment(JsonName(sf), 0)], sf, {} + {Struct(name)});
    FieldIsVisited(types, rank, name, types[name], k, "[]", segments, {} + {Struct(name)});
    assert "" + ARRAY_SUFFIX == "[]";
    assert v in Visits(types, rank, Struct(name), None, "[]", segments, {});
    PrintedPathsResolve(types, rank, Sequence(Struct(name)), v);
  }

  /******* Every path that resolves is a printed one *******/

  function Deeper(segments: seq<Segment>, n: nat): seq<Segment>
    decreases n
  {
    if n == 0 then segments else Deeper(Deepened(segments), n - 1)
  }

  lemma {:induction false} DeeperLast(before: seq<Segment>, last: Segment, n: nat)
    ensures Deeper(before + [last], n) == before + [Segment(last.name, last.arrays + n)]
    decreases n
  {
    if n > 0 {
      DeeperLast(before, Segment(last.name, last.arrays + 1), n - 1);
    }
  }

  lemma AtFieldGoesOn(before: seq<Segment>, segments: seq<Segment>)
    requires 1 < |segments|
    ensures before + [segments[0]] + AtField(segments[1..]) == before + AtField(segments)
  {
    assert [segments[0]] + AtField(segments[1..]) == AtField(segments);
  }

  /** A field found in a struct's schema is the schema of one of its declared fields. */
  lemma {:induction false} FoundIsDeclared(types: Types, fields: seq<StructField>, onPath: set<GoType>, name: string)
    returns (k: nat)
    requires FieldNamed(FieldSchemas(types, fields, onPath), name).Some?
    ensures k < |fields| && Shown(fields[k]) && JsonName(fields[k]) == name
    ensures FieldNamed(FieldSchemas(types, fields, onPath), name) == Some(FieldSchema(types, fields[k], onPath))
    decreases |fields|
  {
    var before, last := fields[..|fields| - 1], fields[|fields| - 1];
    var schemas := FieldSchemas(types, before, onPath);
    FieldNamedLast(schemas, FieldSchema(types, last, onPath), name);
    assert schemas + [] == schemas;
    if FieldNamed(schemas, name).Some? {
      k := FoundIsDeclared(types, before, onPath, name);
    } else {
      k := |before|;
    }
  }

  lemma {:induction false} FoundIsVisited(
    types: Types, rank: map<string, nat>, t: GoType, at: Option<StructField>, path: string,
    segments: seq<Segment>, within: set<GoType>, arrays: nat, rest: seq<Segment>)
    returns (v: Visit)
    requires Acyclic(types, rank) && rest != []
    requires Below(Some(SchemaOf(types, t, within)), arrays).Some?
    requires Find(Below(Some(SchemaOf(types, t, within)), arrays).value, rest).Some?
    ensures v in Visits(types, rank, t, at, path, segments, within)
    ensures v.segments == Deeper(segments, arrays) + AtField(rest)
    ensures Some(FieldSchema(types, v.field, v.within)) == Find(Below(Some(SchemaOf(types, t, within)), arrays).value, rest)
    decreases |rest|, 1, Size(t)
  {
    var schema := SchemaOf(types, t, within);
    if arrays > 0 {
      var elem := Peeled(t).elem;
      v := FoundIsVisited(types, rank, elem, at, path + ARRAY_SUFFIX, Deepened(segments), within, arrays - 1, rest);
    } else {
      v := FoundInStruct(types, rank, Peeled(t).name, schema, path, segments, within + {Peeled(t)}, rest);
    }
  }

  lemma {:induction false} FoundInStruct(
    types: Types, rank: map<string, nat>, name: string, node: Schema, path: string,
    segments: seq<Segment>, within: set<GoType>, rest: seq<Segment>)
    returns (v: Visit)
    requires Acyclic(types, rank) && name in types && rest != []
    requires node.fields == FieldSchemas(types, types[name], within) && Find(node, rest).Some?
    ensures v in FieldVisits(types, rank, name, types[name], path, segments, within)
    ensures v.segments == segments + AtField(rest)
    ensures Some(FieldSchema(types, v.field, v.within)) == Find(node, rest)
    decreases |rest|, 0
  {
    var k := FoundIsDeclared(types, types[name], within, rest[0].name);
    var sf := types[name][k];
    FieldIsVisited(types, rank, name, types[name], k, path, segments, within);
    var here := Segment(rest[0].name, 0);
    if |rest| == 1 {
      v := Visit(Nested(path, here.name), segments + [here], sf, within);
    } else {
      v := FoundIsVisited(
        types, rank, sf.typ, Some(sf), Nested(path, here.name), segments + [here], within, rest[0].arrays, rest[1..]);
      DeeperLast(segments, here, rest[0].arrays);
      AtFieldGoesOn(segments, rest);
    }
  }

  lemma {:induction false} ArraysAppend(n: nat, m: nat)
    ensures Arrays(n) + Arrays(m) == Arrays(n + m)
    decreases m
  {
    if m > 0 {
      ArraysAppend(n, m - 1);
    }
  }

  lemma {:induction false} SegmentIsPlain(s: string)
    ensures !EndsInArray(SegmentOf(s).name) && SegmentText(SegmentOf(s)) == s
    ensures '.' !in s ==> '.' !in SegmentOf(s).name
    decreases |s|
  {
    if EndsInArray(s) {
      var inner := s[..|s| - 2];
      SegmentIsPlain(inner);
      assert s == inner + ARRAY_SUFFIX;
    }
  }

  /** The text of a path from its first step on. */
  lemma {:induction false} PathTextFirst(first: Segment, rest: seq<Segment>)
    requires rest != []
    ensures PathText([first] + rest) == SegmentText(first) + "." + PathText(rest)
    decreases |rest|
  {
    var segments := [first] + rest;
    var before := rest[..|rest| - 1];
    assert segments[..|segments| - 1] == [first] + before;
    if before != [] {
      PathTextFirst(first, before);
    }
  }

  lemma {:induction false} ReadPathIsItsText(parts: seq<string>)
    requires parts != []
    ensures PathText(SegmentsOf(parts)) == Joined(parts, '.')
    decreases |parts|
  {
    SegmentIsPlain(parts[0]);
    if |parts| == 1 {
      assert SegmentsOf(parts) == [SegmentOf(parts[0])];
    } else {
      ReadPathIsItsText(parts[1..]);
      SegmentsCount(parts[1..]);
      PathTextFirst(SegmentOf(parts[0]), SegmentsOf(parts[1..]));
    }
  }

  lemma {:induction false} LastArraysDoNotMatter(schema: Schema, before: seq<Segment>, a: Segment, b: Segment)
    requires a.name == b.name
    ensures Find(schema, before + [a]) == Find(schema, before + [b])
    decreases |before|
  {
    if before != [] {
      assert (before + [a])[1..] == before[1..] + [a] && (before + [b])[1..] == before[1..] + [b];
      var field := FieldNamed(schema.fields, before[0].name);
      if field.Some? && Below(Some(field.value.schema), before[0].arrays).Some? {
        LastArraysDoNotMatter(Below(Some(field.value.schema), before[0].arrays).value, before[1..], a, b);
      }
    }
  }

  function Lead(before: seq<Segment>): string {
    if before == [] then "" else PathText(before) + "."
  }

  lemma PathTextAppends(before: seq<Segment>, last: Segment)
    ensures PathText(before + [last]) == Lead(before) + SegmentText(last)
  {
    var all := before + [last];
    assert all[..|all| - 1] == before && all[|all| - 1] == last;
  }

  lemma Associative(a: string, b: string, c: string)
    ensures (a + b) + c == a + (b + c)
  {
  }

  lemma PathTextLast(before: seq<Segment>, last: Segment, deeper: Segment, n: nat)
    requires deeper == Segment(last.name, last.arrays + n)
    ensures PathText(before + [deeper]) == PathText(before + [last]) + Arrays(n)
  {
    PathTextAppends(before, last);
    PathTextAppends(before, deeper);
    ArraysAppend(last.arrays, n);
    Associative(last.name, Arrays(last.arrays), Arrays(n));
    Associative(Lead(before), SegmentText(last), Arrays(n));
  }

  lemma MoreArraysDoNotMatter(schema: Schema, segments: seq<Segment>, n: nat)
    requires segments != [] && PathText(segments) != "" && forall s :: s in segments ==> PlainName(s.name)
    ensures Found(schema, PathText(segments) + Arrays(n)) == Found(schema, PathText(segments))
  {
    var before, last := LastOf(segments);
    var deeper := Segment(last.name, last.arrays + n);
    assert last in segments;
    PathTextLast(before, last, deeper, n);
    PathReadsBack(segments);
    PathReadsBack(before + [deeper]);
    LastArraysDoNotMatter(schema, before, last, deeper);
  }

  /** `path` is the printed path of `v`, with any number of further array levels behind it. */
  ghost predicate PrintedFor(path: string, v: Visit) {
    exists n: nat :: path == v.path + Arrays(n)
  }

  /** For a struct, the schema reader finds a field under a path exactly when the example walk prints
      that path for it. The one thing it adds are array levels behind the last name: a rule on "tags[]"
      or "tags[][][]" is a rule on "tags". */
  lemma ResolvablePathsAreThePrinted(types: Types, rank: map<string, nat>, root: GoType, path: string, f: Field)
    requires Acyclic(types, rank) && WellNamed(types) && Peeled(root).Struct?
    ensures Found(SchemaOf(types, root, {}), path) == Some(f) <==>
            exists v :: v in Visits(types, rank, root, None, "", [], {})
                        && PrintedFor(path, v) && FieldSchema(types, v.field, v.within) == f
  {
    if Found(SchemaOf(types, root, {}), path) == Some(f) {
      var v := ResolvableIsPrinted(types, rank, root, path);
    }
    forall v | v in Visits(types, rank, root, None, "", [], {}) && PrintedFor(path, v)
      ensures Found(SchemaOf(types, root, {}), path) == Some(FieldSchema(types, v.field, v.within))
    {
      PrintedIsResolvable(types, rank, root, path, v);
    }
  }

  lemma ResolvableIsPrinted(types: Types, rank: map<string, nat>, root: GoType, path: string) returns (v: Visit)
    requires Acyclic(types, rank) && WellNamed(types)
    requires Found(SchemaOf(types, root, {}), path).Some?
    ensures v in Visits(types, rank, root, None, "", [], {}) && PrintedFor(path, v)
    ensures Found(SchemaOf(types, root, {}), path) == Some(FieldSchema(types, v.field, v.within))
  {
    var segments := SegmentsOf(Split(path, '.'));
    v := FoundIsVisited(types, rank, root, None, "", [], {}, 0, segments);
    VisitsSpell(types, rank, root, None, "", [], {}, v);
    ReadPathIsItsText(Split(path, '.'));
    SplitJoins(path, '.');
    var before, last := LastOf(segments);
    PathTextLast(before, Segment(last.name, 0), last, last.arrays);
    assert [] + AtField(segments) == AtField(segments);
    assert path == v.path + Arrays(last.arrays);
  }

  lemma PrintedIsResolvable(types: Types, rank: map<string, nat>, root: GoType, path: string, v: Visit)
    requires Acyclic(types, rank) && WellNamed(types) && Peeled(root).Struct?
    requires v in Visits(types, rank, root, None, "", [], {}) && PrintedFor(path, v)
    ensures Found(SchemaOf(types, root, {}), path) == Some(FieldSchema(types, v.field, v.within))
  {
    var n: nat :| path == v.path + Arrays(n);
    var schema := SchemaOf(types, root, {});
    VisitsSpell(types, rank, root, None, "", [], {}, v);
    PrintedPathsResolve(types, rank, root, v);
    MoreArraysDoNotMatter(schema, v.segments, n);
  }
}
