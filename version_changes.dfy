/**
 * Version-change declarations (`AbstractVersionChange` in universi/structure/versions.py).
 *
 * A version change is declared as a class whose body holds a description and the list of
 * instructions that migrate the API to the previous version, plus any response instructions.
 * When the class is created (`__init_subclass__`) its body is validated, the instruction list is
 * split by kind into schema, enum and endpoint instructions, the response instructions are
 * indexed by endpoint, and a schema targeted twice is rejected.
 *
 * The class body is modelled as the ordered list of its `__dict__` items; Python values the
 * validation does not inspect are abstracted into a few shapes (`AttrValue`).
 */
module VersionChanges {
  import opened Wrappers
  import opened Classes

  /** The serialized response body that response instructions transform. */
  type Payload

  /** An endpoint function, by identity. */
  datatype Endpoint = Endpoint(id: nat)

  /** One element of `instructions_to_migrate_to_previous_version`. */
  datatype Instruction =
    | AlterSchema(schema: ClassRef)      // an `AlterSchemaInstruction` on one schema
    | AlterEnum(enumeration: ClassRef)   // an `AlterEnumSubInstruction` on one enum
    | AlterEndpoint(endpoint: Endpoint)  // an `AlterEndpointSubInstruction`
    | Foreign                            // any other object, such as a character of a string

  /**
   * An `AlterResponseInstruction`: the endpoints it applies to and the migration of their
   * response body (which the Python function performs in place).
   */
  datatype ResponseInstruction = ResponseInstruction(endpoints: seq<Endpoint>, migrate: Payload -> Payload)

  /** The value of a class attribute, as far as the validation tells values apart. */
  datatype AttrValue =
    | Text(text: string)                          // a `str`, which is a `Sequence` of characters
    | Items(items: seq<Instruction>)              // any other `Sequence` (list, tuple, range, bytes, ...), as its elements
    | Response(instruction: ResponseInstruction)  // an `AlterResponseInstruction`
    | Scalar                                      // a value that is not a `Sequence`: bool, number, None, function, ...

  /** A version-change class as written: its name and the items of its `__dict__`, in order. */
  datatype Declaration = Declaration(name: string, body: seq<(string, AttrValue)>)

  /** `UniversiStructureError`s, and the `AssertionError` of the repeated-schema check. */
  datatype StructureError =
    | MissingDescription(cls: string)
    | MissingInstructions(cls: string)
    | InstructionsNotSequence(cls: string)
    | ForbiddenAttribute(cls: string, attribute: string)
    | RepeatedSchema(schema: ClassRef)

  /** A validated version change with the attributes `__init_subclass__` derives. */
  datatype VersionChange = VersionChange(
    name: string,
    instructions: seq<Instruction>,
    schemaInstructions: seq<Instruction>,
    enumInstructions: seq<Instruction>,
    endpointInstructions: seq<Instruction>,
    responseInstructions: map<Endpoint, ResponseInstruction>)

  const DescriptionAttr := "description"
  const SideEffectsAttr := "side_effects"
  const InstructionsAttr := "instructions_to_migrate_to_previous_version"

  /** The attribute names a version-change class may declare besides response instructions. */
  const AllowedNames: set<string> :=
    {DescriptionAttr, SideEffectsAttr, InstructionsAttr, "__module__", "__doc__"}

  /** The value bound to `key` in a class body, if any. */
  function Lookup(body: seq<(string, AttrValue)>, key: string): (r: Option<AttrValue>)
    ensures r.None? <==> forall i :: 0 <= i < |body| ==> body[i].0 != key
    ensures r.Some? ==> exists i :: 0 <= i < |body| && body[i].0 == key && body[i].1 == r.value
  {
    if body == [] then None
    else if body[0].0 == key then Some(body[0].1)
    else
      var r := Lookup(body[1..], key);
      assert forall i :: 0 < i < |body| ==> body[i] == body[1..][i - 1];
      r
  }

  /** `isinstance(value, Sequence)`. */
  predicate IsSequence(value: AttrValue)
  {
    value.Text? || value.Items?
  }

  /** What iterating over a sequence value yields. */
  function Elements(value: AttrValue): seq<Instruction>
    requires IsSequence(value)
  {
    if value.Items? then value.items else seq(|value.text|, _ => Foreign)
  }

  /** An attribute a version-change class may hold. */
  predicate Allowed(attr: (string, AttrValue))
  {
    attr.1.Response? || attr.0 in AllowedNames
  }

  /** The name of the first attribute that is not allowed. */
  ghost function FirstForbidden(body: seq<(string, AttrValue)>): (r: Option<string>)
    ensures r.None? <==> forall i :: 0 <= i < |body| ==> Allowed(body[i])
    ensures r.Some? ==> exists i :: 0 <= i < |body| && !Allowed(body[i]) && body[i].0 == r.value
                                    && forall j :: 0 <= j < i ==> Allowed(body[j])
  {
    if body == [] then None
    else if !Allowed(body[0]) then Some(body[0].0)
    else
      var r := FirstForbidden(body[1..]);
      assert forall i :: 0 < i < |body| ==> body[i] == body[1..][i - 1];
      r
  }

  /** The bucket an instruction is sorted into. */
  datatype Kind = SchemaKind | EnumKind | EndpointKind

  function KindOf(instruction: Instruction): Kind
  {
    match instruction
    case AlterSchema(_) => SchemaKind
    case AlterEnum(_) => EnumKind
    case _ => EndpointKind
  }

  /** The instructions of one kind, in the order of the list. */
  ghost function Bucket(items: seq<Instruction>, kind: Kind): (r: seq<Instruction>)
    ensures forall k :: 0 <= k < |r| ==> KindOf(r[k]) == kind
    ensures |r| <= |items|
  {
    if items == [] then []
    else
      var last := items[|items| - 1];
      Bucket(items[..|items| - 1], kind) + if KindOf(last) == kind then [last] else []
  }

  /**
   * The endpoint-to-response-instruction map: every endpoint of every response instruction in
   * the body, a later instruction replacing an earlier one for the same endpoint.
   */
  ghost function ResponseMap(body: seq<(string, AttrValue)>): map<Endpoint, ResponseInstruction>
  {
    if body == [] then map[]
    else
      var value := body[|body| - 1].1;
      var m := ResponseMap(body[..|body| - 1]);
      if value.Response? then m + map e | e in value.instruction.endpoints :: value.instruction else m
  }

  /** The schema of the first schema instruction whose schema was already `seen` or met earlier. */
  ghost function FirstRepeat(schemas: seq<Instruction>, seen: set<ClassRef>): Option<ClassRef>
  {
    if schemas == [] then None
    else if schemas[0].AlterSchema? && schemas[0].schema in seen then Some(schemas[0].schema)
    else FirstRepeat(schemas[1..], if schemas[0].AlterSchema? then seen + {schemas[0].schema} else seen)
  }

  /** No two schema instructions target the same schema. */
  ghost predicate DistinctSchemas(schemas: seq<Instruction>)
  {
    forall i, j :: 0 <= i < j < |schemas| && schemas[i].AlterSchema? && schemas[j].AlterSchema? ==>
      schemas[i].schema != schemas[j].schema
  }

  /** What `__init_subclass__` makes of a declaration: the version change, or the error it raises. */
  ghost function Declare(decl: Declaration): Result<VersionChange, StructureError>
  {
    var body := decl.body;
    if Lookup(body, DescriptionAttr).None? then Err(MissingDescription(decl.name))
    else if Lookup(body, InstructionsAttr).None? then Err(MissingInstructions(decl.name))
    else if !IsSequence(Lookup(body, InstructionsAttr).value) then Err(InstructionsNotSequence(decl.name))
    else if FirstForbidden(body).Some? then Err(ForbiddenAttribute(decl.name, FirstForbidden(body).value))
    else
      var items := Elements(Lookup(body, InstructionsAttr).value);
      var schemas := Bucket(items, SchemaKind);
      match FirstRepeat(schemas, {})
      case Some(schema) => Err(RepeatedSchema(schema))
      case None =>
        Ok(VersionChange(decl.name, items, schemas, Bucket(items, EnumKind), Bucket(items, EndpointKind),
                         ResponseMap(body)))
  }

  /** The allow-list loop of `__init_subclass__`: the first attribute it rejects, if any. */
  method FindForbidden(body: seq<(string, AttrValue)>) returns (forbidden: Option<string>)
    ensures forbidden == FirstForbidden(body)
  {
    for i := 0 to |body|
      invariant FirstForbidden(body[i..]) == FirstForbidden(body)
    {
      if !Allowed(body[i]) {
        return Some(body[i].0);
      }
      assert body[i..][1..] == body[i + 1..];
    }
    return None;
  }

  /** The bucketing loop of `__init_subclass__`. */
  method SplitByKind(items: seq<Instruction>) returns (schemas: seq<Instruction>, enums: seq<Instruction>, endpoints: seq<Instruction>)
    ensures schemas == Bucket(items, SchemaKind)
    ensures enums == Bucket(items, EnumKind)
    ensures endpoints == Bucket(items, EndpointKind)
  {
    schemas, enums, endpoints := [], [], [];
    for k := 0 to |items|
      invariant schemas == Bucket(items[..k], SchemaKind)
      invariant enums == Bucket(items[..k], EnumKind)
      invariant endpoints == Bucket(items[..k], EndpointKind)
    {
      assert items[..k + 1][..k] == items[..k];
      match items[k]
      case AlterSchema(_) => schemas := schemas + [items[k]];
      case AlterEnum(_) => enums := enums + [items[k]];
      case _ => endpoints := endpoints + [items[k]];
    }
    assert items[..|items|] == items;
  }

  /** The dict comprehension building `alter_response_instructions`. */
  method IndexResponses(body: seq<(string, AttrValue)>) returns (responses: map<Endpoint, ResponseInstruction>)
    ensures responses == ResponseMap(body)
  {
    responses := map[];
    for i := 0 to |body|
      invariant responses == ResponseMap(body[..i])
    {
      assert body[..i + 1][..i] == body[..i];
      if body[i].1.Response? {
        var instruction := body[i].1.instruction;
        responses := responses + map e | e in instruction.endpoints :: instruction;
      }
    }
    assert body[..|body|] == body;
  }

  /** The `repetitions` loop of `__init_subclass__`: the first schema met a second time, if any. */
  method FindRepeat(schemas: seq<Instruction>) returns (repeated: Option<ClassRef>)
    ensures repeated == FirstRepeat(schemas, {})
  {
    var seen := {};
    for k := 0 to |schemas|
      invariant FirstRepeat(schemas[k..], seen) == FirstRepeat(schemas, {})
    {
      assert schemas[k..][1..] == schemas[k + 1..];
      if schemas[k].AlterSchema? {
        if schemas[k].schema in seen {
          return Some(schemas[k].schema);
        }
        seen := seen + {schemas[k].schema};
      }
    }
    return None;
  }

  /** `AbstractVersionChange.__init_subclass__`: validate the class body and derive its buckets. */
  method DefineVersionChange(decl: Declaration) returns (r: Result<VersionChange, StructureError>)
    ensures r == Declare(decl)
  {
    var body := decl.body;
    var description := Lookup(body, DescriptionAttr);
    if description.None? {
      return Err(MissingDescription(decl.name));
    }
    var instructions := Lookup(body, InstructionsAttr);
    if instructions.None? {
      return Err(MissingInstructions(decl.name));
    }
    if !IsSequence(instructions.value) {
      return Err(InstructionsNotSequence(decl.name));
    }
    var forbidden := FindForbidden(body);
    if forbidden.Some? {
      return Err(ForbiddenAttribute(decl.name, forbidden.value));
    }
    var items := Elements(instructions.value);
    var schemas, enums, endpoints := SplitByKind(items);
    var responses := IndexResponses(body);
    var repeated := FindRepeat(schemas);
    if repeated.Some? {
      return Err(RepeatedSchema(repeated.value));
    }
    return Ok(VersionChange(decl.name, items, schemas, enums, endpoints, responses));
  }

  // ---------------------------------------------------------------------------------------------
  // Bucketing is a partition of the instruction list

  /** Bucketing keeps the relative order: the buckets of a concatenation are concatenated. */
  lemma {:induction false} BucketAppend(a: seq<Instruction>, b: seq<Instruction>, kind: Kind)
    ensures Bucket(a + b, kind) == Bucket(a, kind) + Bucket(b, kind)
  {
    if b == [] {
      assert a + b == a;
    } else {
      var n := |b| - 1;
      BucketAppend(a, b[..n], kind);
      assert (a + b)[..|a + b| - 1] == a + b[..n];
      assert (a + b)[|a + b| - 1] == b[n];
    }
  }

  /** Every instruction lands in exactly one bucket. */
  lemma {:induction false} BucketsPartition(items: seq<Instruction>)
    ensures |Bucket(items, SchemaKind)| + |Bucket(items, EnumKind)| + |Bucket(items, EndpointKind)| == |items|
    ensures multiset(Bucket(items, SchemaKind)) + multiset(Bucket(items, EnumKind)) + multiset(Bucket(items, EndpointKind))
            == multiset(items)
  {
    if items != [] {
      var n := |items| - 1;
      var last := items[n];
      BucketsPartition(items[..n]);
      assert items == items[..n] + [last];
      BucketStep(items, SchemaKind);
      BucketStep(items, EnumKind);
      BucketStep(items, EndpointKind);
    }
  }

  /** The last instruction adds itself to the bucket of its kind and nothing to the others. */
  lemma BucketStep(items: seq<Instruction>, kind: Kind)
    requires items != []
    ensures var n := |items| - 1;
            && |Bucket(items, kind)| == |Bucket(items[..n], kind)| + (if KindOf(items[n]) == kind then 1 else 0)
            && multiset(Bucket(items, kind))
               == multiset(Bucket(items[..n], kind)) + (if KindOf(items[n]) == kind then multiset{items[n]} else multiset{})
  {
  }

  /** An instruction of the list is in the bucket of its kind. */
  lemma {:induction false} BucketHasItem(items: seq<Instruction>, k: nat)
    requires k < |items|
    ensures items[k] in Bucket(items, KindOf(items[k]))
  {
    var n := |items| - 1;
    if k < n {
      BucketHasItem(items[..n], k);
    }
  }

  /** A list of non-instructions goes whole into the endpoint bucket. */
  lemma {:induction false} ForeignInEndpointBucket(items: seq<Instruction>)
    requires forall k :: 0 <= k < |items| ==> items[k] == Foreign
    ensures Bucket(items, EndpointKind) == items
    ensures Bucket(items, SchemaKind) == [] && Bucket(items, EnumKind) == []
  {
    if items != [] {
      ForeignInEndpointBucket(items[..|items| - 1]);
      assert items == items[..|items| - 1] + [items[|items| - 1]];
    }
  }

  /**
   * A string given as the instruction list passes the `Sequence` check and is iterated
   * character by character: every character lands in the endpoint bucket.
   */
  lemma TextInstructionsInEndpointBucket(t: string)
    ensures var items := Elements(Text(t));
            && |items| == |t|
            && Bucket(items, EndpointKind) == items
            && Bucket(items, SchemaKind) == [] && Bucket(items, EnumKind) == []
  {
    ForeignInEndpointBucket(Elements(Text(t)));
  }

  // ---------------------------------------------------------------------------------------------
  // The repeated-schema check

  /** `FirstRepeat` finds nothing exactly when no schema is met twice or was already seen. */
  lemma {:induction false} FirstRepeatFindsRepetition(schemas: seq<Instruction>, seen: set<ClassRef>)
    ensures FirstRepeat(schemas, seen).None? <==>
              DistinctSchemas(schemas)
              && forall k :: 0 <= k < |schemas| && schemas[k].AlterSchema? ==> schemas[k].schema !in seen
    ensures FirstRepeat(schemas, seen).Some? ==>
              var s := FirstRepeat(schemas, seen).value;
              exists j :: 0 <= j < |schemas| && schemas[j] == AlterSchema(s)
                          && (s in seen || exists i :: 0 <= i < j && schemas[i] == AlterSchema(s))
  {
    if schemas != [] {
      var head := schemas[0];
      var tail := schemas[1..];
      var seen' := if head.AlterSchema? then seen + {head.schema} else seen;
      assert forall k :: 0 < k < |schemas| ==> schemas[k] == tail[k - 1];
      if !(head.AlterSchema? && head.schema in seen) {
        FirstRepeatFindsRepetition(tail, seen');
        if FirstRepeat(tail, seen').Some? {
          var s := FirstRepeat(tail, seen').value;
          var j :| 0 <= j < |tail| && tail[j] == AlterSchema(s)
                   && (s in seen' || exists i :: 0 <= i < j && tail[i] == AlterSchema(s));
          assert schemas[j + 1] == AlterSchema(s);
          if s !in seen && s in seen' {
            assert schemas[0] == AlterSchema(s);
          } else if s !in seen' {
            var i :| 0 <= i < j && tail[i] == AlterSchema(s);
            assert schemas[i + 1] == AlterSchema(s);
          }
        }
      }
    }
  }

  // ---------------------------------------------------------------------------------------------
  // The response-instruction map

  /** The attribute is a response instruction for endpoint `e`. */
  ghost predicate Names(value: AttrValue, e: Endpoint)
  {
    value.Response? && e in value.instruction.endpoints
  }

  /** The map has one key for every endpoint named by any response instruction, and no other. */
  lemma {:induction false} ResponseMapKeys(body: seq<(string, AttrValue)>, e: Endpoint)
    ensures e in ResponseMap(body) <==> exists i :: 0 <= i < |body| && Names(body[i].1, e)
  {
    if body != [] {
      var n := |body| - 1;
      ResponseMapKeys(body[..n], e);
      assert forall i :: 0 <= i < n ==> body[..n][i] == body[i];
    }
  }

  /** For an endpoint, the map holds the last response instruction that names it. */
  lemma {:induction false} ResponseMapLast(body: seq<(string, AttrValue)>, i: nat, e: Endpoint)
    requires i < |body| && Names(body[i].1, e)
    requires forall j :: i < j < |body| ==> !Names(body[j].1, e)
    ensures e in ResponseMap(body) && ResponseMap(body)[e] == body[i].1.instruction
  {
    var n := |body| - 1;
    if i < n {
      ResponseMapLast(body[..n], i, e);
    }
  }

  // ---------------------------------------------------------------------------------------------
  // What a declaration gives

  /** A declaration is accepted exactly when it passes every check of `__init_subclass__`. */
  lemma DeclareAccepts(decl: Declaration)
    ensures Declare(decl).Ok? <==>
              && Lookup(decl.body, DescriptionAttr).Some?
              && Lookup(decl.body, InstructionsAttr).Some?
              && IsSequence(Lookup(decl.body, InstructionsAttr).value)
              && (forall i :: 0 <= i < |decl.body| ==> Allowed(decl.body[i]))
              && DistinctSchemas(Bucket(Elements(Lookup(decl.body, InstructionsAttr).value), SchemaKind))
  {
    var instructions := Lookup(decl.body, InstructionsAttr);
    if instructions.Some? && IsSequence(instructions.value) {
      FirstRepeatFindsRepetition(Bucket(Elements(instructions.value), SchemaKind), {});
    }
  }

  /** The checks run in order; each error is raised exactly when the earlier checks pass and its own fails. */
  lemma DeclareRejects(decl: Declaration)
    ensures Declare(decl) == Err(MissingDescription(decl.name)) <==>
              forall i :: 0 <= i < |decl.body| ==> decl.body[i].0 != DescriptionAttr
    ensures Declare(decl) == Err(MissingInstructions(decl.name)) <==>
              && (exists i :: 0 <= i < |decl.body| && decl.body[i].0 == DescriptionAttr)
              && forall i :: 0 <= i < |decl.body| ==> decl.body[i].0 != InstructionsAttr
    ensures Declare(decl) == Err(InstructionsNotSequence(decl.name)) <==>
              && Lookup(decl.body, DescriptionAttr).Some?
              && Lookup(decl.body, InstructionsAttr).Some?
              && !IsSequence(Lookup(decl.body, InstructionsAttr).value)
    ensures Declare(decl).Err? && Declare(decl).error.ForbiddenAttribute? ==>
              FirstForbidden(decl.body) == Some(Declare(decl).error.attribute)
              && exists i :: 0 <= i < |decl.body| && !Allowed(decl.body[i])
                             && decl.body[i].0 == Declare(decl).error.attribute
    ensures && Lookup(decl.body, DescriptionAttr).Some?
            && Lookup(decl.body, InstructionsAttr).Some?
            && IsSequence(Lookup(decl.body, InstructionsAttr).value)
            && FirstForbidden(decl.body).Some? ==>
              Declare(decl) == Err(ForbiddenAttribute(decl.name, FirstForbidden(decl.body).value))
    ensures Declare(decl).Err? && Declare(decl).error.RepeatedSchema? ==>
              var items := Elements(Lookup(decl.body, InstructionsAttr).value);
              exists i, j :: 0 <= i < j < |items| && items[i] == items[j] == AlterSchema(Declare(decl).error.schema)
  {
    var body := decl.body;
    var instructions := Lookup(body, InstructionsAttr);
    if Declare(decl).Err? && Declare(decl).error.RepeatedSchema? {
      var items := Elements(instructions.value);
      var schemas := Bucket(items, SchemaKind);
      var s := Declare(decl).error.schema;
      FirstRepeatFindsRepetition(schemas, {});
      var j :| 0 <= j < |schemas| && schemas[j] == AlterSchema(s) && exists i :: 0 <= i < j && schemas[i] == AlterSchema(s);
      var i :| 0 <= i < j && schemas[i] == AlterSchema(s);
      BucketTwice(items, i, j);
    }
  }

  /** Two schema instructions at distinct places of the bucket come from distinct places of the list. */
  lemma {:induction false} BucketTwice(items: seq<Instruction>, i: nat, j: nat)
    requires i < j < |Bucket(items, SchemaKind)|
    ensures exists a, b :: 0 <= a < b < |items| && items[a] == Bucket(items, SchemaKind)[i] && items[b] == Bucket(items, SchemaKind)[j]
  {
    var n := |items| - 1;
    var prefix := Bucket(items[..n], SchemaKind);
    if j < |prefix| {
      BucketTwice(items[..n], i, j);
      var a, b :| 0 <= a < b < n && items[..n][a] == prefix[i] && items[..n][b] == prefix[j];
      assert items[a] == prefix[i] && items[b] == prefix[j];
    } else {
      assert Bucket(items, SchemaKind)[j] == items[n];
      assert prefix[i] in prefix;
      BucketMembers(items[..n], prefix[i]);
      var a :| 0 <= a < n && items[..n][a] == prefix[i];
      assert items[a] == prefix[i];
    }
  }

  /** A bucket holds only instructions of the list. */
  lemma {:induction false} BucketMembers(items: seq<Instruction>, x: Instruction)
    requires x in Bucket(items, SchemaKind)
    ensures exists a :: 0 <= a < |items| && items[a] == x
  {
    var n := |items| - 1;
    if x in Bucket(items[..n], SchemaKind) {
      BucketMembers(items[..n], x);
      var a :| 0 <= a < n && items[..n][a] == x;
      assert items[a] == x;
    } else {
      assert items[n] == x;
    }
  }

  /** The parts of an accepted declaration's version change. */
  lemma DeclaredParts(decl: Declaration)
    requires Declare(decl).Ok?
    ensures Lookup(decl.body, InstructionsAttr).Some? && IsSequence(Lookup(decl.body, InstructionsAttr).value)
    ensures var c := Declare(decl).value;
            var items := Elements(Lookup(decl.body, InstructionsAttr).value);
            && c.instructions == items
            && c.schemaInstructions == Bucket(items, SchemaKind)
            && c.enumInstructions == Bucket(items, EnumKind)
            && c.endpointInstructions == Bucket(items, EndpointKind)
            && c.responseInstructions == ResponseMap(decl.body)
            && FirstRepeat(c.schemaInstructions, {}).None?
  {
  }

  /**
   * An accepted declaration partitions its instruction list into the three buckets by kind, and
   * no two of its schema instructions target the same schema.
   */
  lemma DeclaredChange(decl: Declaration)
    requires Declare(decl).Ok?
    ensures var c := Declare(decl).value;
            && |c.schemaInstructions| + |c.enumInstructions| + |c.endpointInstructions| == |c.instructions|
            && multiset(c.schemaInstructions) + multiset(c.enumInstructions) + multiset(c.endpointInstructions)
               == multiset(c.instructions)
            && (forall k :: 0 <= k < |c.schemaInstructions| ==> c.schemaInstructions[k].AlterSchema?)
            && (forall k :: 0 <= k < |c.enumInstructions| ==> c.enumInstructions[k].AlterEnum?)
            && (forall k :: 0 <= k < |c.endpointInstructions| ==>
                  !c.endpointInstructions[k].AlterSchema? && !c.endpointInstructions[k].AlterEnum?)
            && DistinctSchemas(c.schemaInstructions)
  {
    var c := Declare(decl).value;
    DeclaredParts(decl);
    BucketsPartition(c.instructions);
    FirstRepeatFindsRepetition(c.schemaInstructions, {});
  }

  /** An accepted declaration's response map has one key for every endpoint its response instructions name. */
  lemma DeclaredResponses(decl: Declaration, e: Endpoint)
    requires Declare(decl).Ok?
    ensures e in Declare(decl).value.responseInstructions <==>
              exists i :: 0 <= i < |decl.body| && Names(decl.body[i].1, e)
  {
    DeclaredParts(decl);
    ResponseMapKeys(decl.body, e);
  }
}
