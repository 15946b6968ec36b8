# Version chain, version-change declarations and module-path rewriting of universi

universi keeps several public versions of an API from one hand-maintained `latest` package.
The authors declare dated `Version`s, each with "version changes". A version change lists
instructions that migrate the API to the previous version.

This project models three parts of that core in Dafny and proves properties about them:

- **Version-change declarations** (`AbstractVersionChange.__init_subclass__`):
  - validates the class body: a description is required, the instruction list is required and
    must be a sequence, and only allowed attributes may appear;
  - splits the instruction list into schema, enum and endpoint buckets;
  - indexes the response instructions by endpoint;
  - rejects a schema targeted twice.
- **The version chain** (`Version`, `Versions`):
  - the ordering check at construction;
  - the derived indexes `versioned_schemas`, `versioned_enums` and
    `_version_changes_to_version_mapping`;
  - `is_active`;
  - `data_to_version`, the response migration walk. It goes from the newest version down to
    the requested one and applies each passed change's response instruction for the endpoint.
- **Module-path rewriting** (`get_another_version_of_module`, `get_another_version_of_cls`):
  maps a module of the `latest` tree to the same module under a version directory such as
  `v2021_01_01`.

Files:

- `wrappers.dfy`: `Option` and `Result`.
- `classes.dfy`: module `Classes`, the identity `ClassRef` of a schema, enum or rewritten class.
- `dates.dfy`: calendar dates `(year, month, day)`, compared lexicographically as Python
  compares `datetime.date`.
- `module_paths.dfy`: module `ModulePaths`. Paths are split the way `pathlib.PurePosixPath`
  splits them. Dotted names are split and joined on `.`, as `str.split` and `str.join` do.
- `version_changes.dfy`: module `VersionChanges`. `__init_subclass__` is the method
  `DefineVersionChange`. Its loops are the helper methods `FindForbidden`, `SplitByKind`,
  `IndexResponses` and `FindRepeat`. Each is proved against a specification function
  (`FirstForbidden`, `Bucket`, `ResponseMap`, `FirstRepeat`), and the method against `Declare`.
- `versions.dfy`: module `VersionChain`. `data_to_version` is the method `DataToVersion`, with
  the same early `break`. It is proved equal to the fold `Migrate`. Lemmas relate `Migrate` to an
  independent definition: apply every version strictly newer than the requested one.

Modelling choices:

- The response payload is an abstract type.
- A response instruction is a function `Payload -> Payload`. The Python function changes the
  payload in place; here it returns the new payload.
- The requested version is an explicit `Option<Date>` argument.
- A class body (`cls.__dict__`) is the ordered list of its items. Python values are abstracted
  to what the validation looks at:
  - a string;
  - any other `Sequence` (list, tuple, range, bytes, ...), as its elements; elements that are not
    schema or enum instructions are `Foreign` and go to the endpoint bucket;
  - a response instruction;
  - a value that is not a `Sequence`.
- A version change is identified by its class name.
- A class body holds each attribute name once, as a class `__dict__` does; bodies with a repeated
  name are outside what the model describes.
- Python compares `Version` objects by identity in the ordering check. The model therefore
  sorts positions by date with a stable insertion sort, and compares the result with the
  positions as given.

Points where the code is more permissive than its messages suggest:

- The error message of the ordering check asks for descending order, but equal dates pass: the
  stable sort leaves them in place (universi/structure/versions.py:108-111). The chain only has
  to be non-increasing by date.
- A description only has to be present, not non-empty.
- A schema targeted twice fails an `assert` (universi/structure/versions.py:78-80), so it raises
  an `AssertionError`, not a structure error. The model keeps it as its own error case,
  `RepeatedSchema`. Under `python -O` the assertion is stripped and repeated schemas are accepted;
  the model follows the default interpreter mode.

## Model

| member | source | states |
|---|---|---|
| `VersionChanges.DefineVersionChange` | universi/structure/versions.py:36-81 | `__init_subclass__` returns exactly what `Declare` gives: the same checks in the same order, the buckets, the response map and the repeated-schema error |
| `VersionChanges.FindForbidden` | universi/structure/versions.py:48-58 | the allow-list loop returns the name of the first attribute that is neither a response instruction nor an allowed name, or none |
| `VersionChanges.FirstForbidden` | universi/structure/versions.py:48-58 | no attribute is reported iff every attribute is allowed; a reported name belongs to a forbidden attribute with only allowed attributes before it |
| `VersionChanges.SplitByKind` | universi/structure/versions.py:60-69 | the bucketing loop yields the schema, enum and endpoint buckets of the list |
| `VersionChanges.Bucket` | universi/structure/versions.py:63-69 | every instruction in a bucket has that bucket's kind, and the bucket is no longer than the list |
| `VersionChanges.BucketAppend` | universi/structure/versions.py:63-69 | bucketing keeps relative order: the buckets of `a + b` are those of `a` followed by those of `b` |
| `VersionChanges.BucketsPartition` | universi/structure/versions.py:60-69 | the three bucket lengths sum to the list's length, and their multisets add up to the list's multiset |
| `VersionChanges.BucketHasItem` | universi/structure/versions.py:63-69 | every instruction of the list is in the bucket of its kind |
| `VersionChanges.IndexResponses` | universi/structure/versions.py:70-75 | the comprehension builds the endpoint-to-response-instruction map `ResponseMap` |
| `VersionChanges.ResponseMapKeys` | universi/structure/versions.py:70-75 | an endpoint is a key iff some response-instruction attribute names it |
| `VersionChanges.ResponseMapLast` | universi/structure/versions.py:70-75 | an endpoint maps to the last response instruction in the class body that names it |
| `VersionChanges.FindRepeat` | universi/structure/versions.py:76-81 | the `repetitions` loop reports the first schema met a second time, or none |
| `VersionChanges.FirstRepeatFindsRepetition` | universi/structure/versions.py:76-81 | nothing is reported iff no two schema instructions target the same schema; a reported schema is targeted twice |
| `VersionChanges.DeclareAccepts` | universi/structure/versions.py:38-81 | a declaration is accepted iff it has a description and an instruction list, the list is a sequence, every attribute is allowed and no schema is targeted twice |
| `VersionChanges.DeclareRejects` | universi/structure/versions.py:38-81 | each of the first three structure errors arises exactly when the earlier checks pass and its own check fails; once those pass, a forbidden attribute always gives the structure error for the first forbidden name, even when a schema is also repeated; a reported repeated schema really is targeted twice |
| `VersionChanges.DeclaredChange` | universi/structure/versions.py:60-81 | an accepted change's buckets partition its instructions by kind, and no two of its schema instructions target the same schema |
| `VersionChanges.DeclaredResponses` | universi/structure/versions.py:70-75 | an accepted change's response map has one key for every endpoint a response instruction names, and no other |
| `VersionChanges.TextInstructionsInEndpointBucket` | universi/structure/versions.py:44-69 | a string passes the sequence check, and each of its characters becomes an item of the endpoint bucket, with the schema and enum buckets empty |
| `VersionChanges.ForeignInEndpointBucket` | universi/structure/versions.py:63-69 | a list of values that are neither schema nor enum instructions goes whole, in order, into the endpoint bucket |
| `VersionChanges.Lookup` | universi/structure/versions.py:38-44 | an attribute read finds nothing iff the body has no binding of that name, and otherwise returns a value bound to it |
| `VersionChain.NewVersions` | universi/structure/versions.py:104-111 | construction succeeds iff the versions are in non-increasing date order, and then keeps them as given |
| `VersionChain.SortCheckIffNonIncreasing` | universi/structure/versions.py:108-111 | the stable descending sort leaves the positions unchanged iff the dates are non-increasing |
| `VersionChain.SortDesc` | universi/structure/versions.py:108 | the modelled `sorted(..., reverse=True)` yields `n` positions, all positions of the chain |
| `VersionChain.SortDescPermutes` | universi/structure/versions.py:108 | the sort is a permutation: each position `0 .. n - 1` occurs exactly once in its result |
| `VersionChain.SortDescSorted` | universi/structure/versions.py:108 | the modelled `sorted(..., reverse=True)` yields dates in non-increasing order |
| `VersionChain.InsertDesc` | universi/structure/versions.py:108 | an insertion step keeps all positions and adds exactly the new one, as a multiset |
| `VersionChain.SortDescOfSorted` | universi/structure/versions.py:108 | sorting versions that are already newest first leaves their order unchanged, even with equal dates |
| `VersionChain.EqualDatesAccepted` | universi/structure/versions.py:108-111 | two versions with the same date are accepted |
| `VersionChain.IndexBy` | universi/structure/versions.py:114-129 | each key of a comprehension-built map holds a class with that key, and every listed class's key is present |
| `VersionChain.VersionedSchemasAsWritten` | universi/structure/versions.py:113-120 | `versioned_schemas` as written: every key holds a targeted schema whose module and name concatenate to the key, and every targeted schema's concatenated key is present |
| `VersionChain.VersionedSchemas` | universi/structure/versions.py:113-120 | the corrected `versioned_schemas`: every key holds a targeted schema whose qualified name is the key, and every targeted schema's qualified name is present |
| `VersionChain.VersionedEnumsAsWritten` | universi/structure/versions.py:122-129 | `versioned_enums` as written: every key holds a targeted enum whose module and name concatenate to the key, and every targeted enum's concatenated key is present |
| `VersionChain.VersionedEnums` | universi/structure/versions.py:122-129 | the corrected `versioned_enums`: every key holds a targeted enum whose qualified name is the key, and every targeted enum's qualified name is present |
| `VersionChain.QualifiedKeyInjective` | universi/structure/versions.py:116 | `module + "." + name` determines the class when class names hold no `.` |
| `VersionChain.VersionedSchemasComplete` | universi/structure/versions.py:113-120 | with qualified keys, every schema any instruction targets is found under its own key |
| `VersionChain.VersionedEnumsComplete` | universi/structure/versions.py:122-129 | with qualified keys, every enum any instruction targets is found under its own key |
| `VersionChain.ConcatKeyLosesSchema` | universi/structure/versions.py:114-120 | as written, `app.ab`.`C` and `app.a`.`bC` share the key `app.abC`, and the map keeps only the second |
| `VersionChain.QualifiedKeyKeepsBoth` | universi/structure/versions.py:114-120 | with qualified keys, the same two schemas keep separate entries |
| `VersionChain.ChangeDates` | universi/structure/versions.py:131-133 | `_version_changes_to_version_mapping` has a key for exactly the version changes some version lists |
| `VersionChain.ChangeDatesLast` | universi/structure/versions.py:131-133 | a version change maps to the date of the last version listing it |
| `VersionChain.ChangeDatesMissing` | universi/structure/versions.py:131-133 | a change that no version lists has no entry |
| `VersionChain.IsActive` | universi/structure/versions.py:135-139 | with no requested version the answer is false, whatever the change |
| `VersionChain.IsActiveIffNotNewer` | universi/structure/versions.py:135-139 | with a requested version, a change is active iff its version's date is at or before it |
| `VersionChain.IsActiveUnknown` | universi/structure/versions.py:135-139 | a change of no version raises the `KeyError` when a version is requested |
| `VersionChain.DataToVersion` | universi/structure/versions.py:142-154 | the loop with its early `break` returns exactly the walk `Migrate` |
| `VersionChain.StopIndex` | universi/structure/versions.py:148-150 | the walk stops at the first version whose date is at or before the requested one; every earlier version is strictly newer |
| `VersionChain.Migrate` | universi/structure/versions.py:148-153 | the walk applies every version of the prefix before the stopping point, in chain order |
| `VersionChain.StopIndexSplitsChain` | universi/structure/versions.py:148-150 | in a newest-first chain, a version lies before the stopping point iff it is strictly newer than requested |
| `VersionChain.NewerThanIsPrefix` | universi/structure/versions.py:148-150 | in a newest-first chain, the versions newer than requested are exactly the prefix the walk passes |
| `VersionChain.MigrateAppliesNewerVersions` | universi/structure/versions.py:148-153 | in a newest-first chain, the migration applies exactly the versions strictly newer than requested, in chain order |
| `VersionChain.ApplyChangesAppend` | universi/structure/versions.py:151-153 | within a version, changes apply in declared order |
| `VersionChain.ApplyVersionsAppend` | universi/structure/versions.py:148-153 | the newer versions' instructions run before the older ones' |
| `VersionChain.ApplyVersionsIsAllChanges` | universi/structure/versions.py:148-153 | applying the versions in turn is applying all their changes as one list |
| `VersionChain.ApplyChanges` | universi/structure/versions.py:151-153 | changes without a response instruction for the endpoint leave the payload unchanged |
| `VersionChain.MigrateUnchanged` | universi/structure/versions.py:148-154 | the payload comes back unchanged when no passed change has an instruction for the endpoint, in particular when the requested version is at least the newest |
| `VersionChain.TwoVersionScenario` | universi/structure/versions.py:142-154 | in a two-version chain, a request for the older version gets the newer version's migration, and a request for the newer one gets the payload as it is |
| `ModulePaths.AnotherVersionOfModule` | universi/_utils.py:20-48 | no source file raises "not defined in a file"; a path error from the relative parts is raised as is; otherwise it succeeds iff there are no more relative parts than name components |
| `ModulePaths.AnotherVersionOfClass` | universi/_utils.py:11-16 | the class keeps its name and moves to the rewritten module; it fails exactly when the module rewrite fails |
| `ModulePaths.RelativeParts` | universi/_utils.py:26-35 | when the path is under the root, the relative parts are never empty |
| `ModulePaths.StripSuffix` | universi/_utils.py:33 | `with_suffix("")` gives a prefix of the name and leaves a name without `.` unchanged |
| `ModulePaths.StripPy` | universi/_utils.py:33 | a file name `stem.py` loses exactly its `.py` suffix, even when the stem holds dots |
| `ModulePaths.RelativeModuleFile` | universi/_utils.py:26-35 | a module file `dirs/stem.py` under the version directory's parent gives the relative parts `dirs + [stem]` |
| `ModulePaths.Parent` | universi/_utils.py:29-31 | `Path.parent` keeps the anchor and drops exactly the last name; a bare anchor is its own parent |
| `ModulePaths.Join` | universi/_utils.py:48 | `".".join` puts a `.` right after the first of two or more components; `JoinSplit` and `SplitJoin` make it the inverse of `split(".")` |
| `ModulePaths.LastDot` | universi/_utils.py:33 | the index found holds the last `.` of the name |
| `ModulePaths.Split` | universi/_utils.py:39 | `split(".")` yields at least one component, and no component contains `.` |
| `ModulePaths.JoinSplit` | universi/_utils.py:39-48 | joining the split components gives back the dotted name |
| `ModulePaths.SplitJoin` | universi/_utils.py:39-48 | splitting the join of dot-free components gives back the components |
| `ModulePaths.ReplacesOneComponent` | universi/_utils.py:37-48 | the rewritten name has as many components as the original, and only the component at `len(parts) - len(relative_parts)` changes, to the version directory's name |
| `ModulePaths.AlreadyInVersion` | universi/_utils.py:41-48 | a name whose replaced component already is the version directory's name comes back unchanged |
| `ModulePaths.InitFileIsPackage` | universi/_utils.py:27-29 | a package's `__init__.py` gives the same relative parts as the package directory |
| `ModulePaths.OutsideRootRejected` | universi/_utils.py:31-33 | a file outside the version directory's parent is rejected, as `relative_to` rejects it |
| `ModulePaths.WorkedExample` | universi/_utils.py:30-35 | `.../companies/latest/schemas.py` against `.../companies/v2021_01_01` gives relative parts `latest`, `schemas` |
| `ModulePaths.WorkedExamplePackage` | universi/_utils.py:25-35 | `.../companies/latest/__init__.py` gives the single relative part `latest` |
| `ModulePaths.WorkedExampleModule` | universi/_utils.py:37-48 | `package.companies.latest.schemas` becomes `package.companies.v2021_01_01.schemas` |

## Findings

| source | as written | input that shows it | evidently intended | confidence | as-written member | corrected member |
|---|---|---|---|---|---|---|
| universi/structure/versions.py:116 | `versioned_schemas` keys each schema by `__module__ + __name__` with no separator, and `versioned_enums` (line 125) does the same | schema `C` in module `app.ab` and schema `bC` in module `app.a`, both targeted in one chain: both keys are `app.abC`, so the first schema is dropped from the index | key by the qualified name `__module__ + "." + __name__`, which no two top-level classes share | not executed; medium | `VersionChain.ConcatKeyLosesSchema` | `VersionChain.VersionedSchemasComplete` |

`VersionedSchemas` and `VersionedEnums` use the qualified key. `VersionedSchemasAsWritten` and
`VersionedEnumsAsWritten` keep the key as the source builds it.

## Left out

- The `versioned` decorator and `_convert_endpoint_response_to_version`
  (universi/structure/versions.py:156-211). They are async wrapping via `functools.wraps` and a
  call into FastAPI's `_prepare_response_content`, a foreign library.
- The `ContextVar` holding the requested version. The requested version is an explicit
  argument instead: `Option<Date>` for `IsActive`, and a `Date` for `DataToVersion` as in the
  source.
- In-place mutation: `DataToVersion` returns the migrated payload. The model does not capture
  that the caller's object is changed, nor any aliasing between payloads.
- The check that a version change is a direct subclass of `AbstractVersionChange`
  (universi/structure/versions.py:83-86). The attribute lookups read only the class's own body,
  which matches direct subclasses. A deeper subclass inherits a parent's `description`, and that
  inheritance is not modelled.
- `__init__` refusing instantiation (universi/structure/versions.py:88-91). It has no behaviour
  beyond raising.
- The `assert isinstance(side_effects, bool)` (universi/structure/versions.py:37). Attribute
  values are abstracted, so the flag's value is not modelled.
- The contents of schema, enum and endpoint instructions beyond the class or endpoint they
  target. The code generator that applies them is not part of this model.
- `functools.cached_property` caching of the derived indexes. They are plain functions here;
  caching only saves recomputation.
- `inspect.getsourcefile`, `sys.modules`, `importlib.import_module` and `getattr`
  (universi/_utils.py:14-16, 21, 49). The source file is an `Option<Path>` argument. The result
  is the dotted name, or the class reference, that would be imported.
- Windows paths. Paths follow `PurePosixPath`.
- ClassRef: a class is identified by its `__module__` and `__name__`, while Python's `repetitions`
  set (universi/structure/versions.py:76-81) and the index dicts (:114-129) hold class objects.
  Two distinct classes with the same module and name, such as nested `A.Config` and `B.Config` in
  one module or a class redefined in its module, are one `ClassRef` here: `FirstRepeat` and
  `Declare` report them as a repeated schema where Python raises nothing, and the `Versioned*`
  indexes, even with the qualified key, give them one entry.
- ChangeDates: version changes are keyed by class name, while Python keys them by class object.
  Two distinct classes with the same `__name__` in different versions share one entry here, so
  `IsActive` gives both the date of the later version; Python keeps them apart.
- universi/__init__.py: re-exports and a package-version lookup, with no logic.
- The code generator exercised by tests/test_codegen.py. It is not part of this model.
