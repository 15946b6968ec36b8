/**
 * The version chain (`Version` and `Versions` in universi/structure/versions.py): dated versions
 * ordered newest first, the indexes derived from them, the activity query and the response
 * migration walk.
 *
 * The requested API version, which the source reads from a context variable, is an explicit
 * argument here.
 */
module VersionChain {
  import opened Wrappers
  import opened Dates
  import opened Classes
  import opened VersionChanges

  /** A version date and the version changes that lead from it to the version below it. */
  datatype Version = Version(date: Date, changes: seq<VersionChange>)

  /** A constructed `Versions` object. */
  datatype Versions = Versions(versions: seq<Version>)

  /** The `ValueError` of `Versions.__init__`. */
  datatype OrderError = NotSortedDescending

  /** The `KeyError` of `is_active` for a version change that belongs to no version. */
  datatype LookupError = UnknownVersionChange(name: string)

  /** Every version is at least as new as every version after it. */
  ghost predicate NonIncreasing(vs: seq<Version>)
  {
    forall i, j :: 0 <= i < j < |vs| ==> Le(vs[j].date, vs[i].date)
  }

  // ---------------------------------------------------------------------------------------------
  // The ordering check of `Versions.__init__`

  /** The positions `order` lists are in non-increasing date order. */
  ghost predicate SortedBy(vs: seq<Version>, order: seq<nat>)
  {
    forall a, b :: 0 <= a < b < |order| && order[a] < |vs| && order[b] < |vs| ==>
      Le(vs[order[b]].date, vs[order[a]].date)
  }

  /** All positions `order` lists are positions of `vs`. */
  predicate InRange(vs: seq<Version>, order: seq<nat>)
  {
    forall k :: 0 <= k < |order| ==> order[k] < |vs|
  }

  /**
   * One insertion step of a stable sort by descending date: position `i` goes before the first
   * position whose date is strictly older, so equal dates keep their original order.
   */
  function InsertDesc(vs: seq<Version>, order: seq<nat>, i: nat): (r: seq<nat>)
    requires i < |vs| && InRange(vs, order)
    ensures InRange(vs, r) && |r| == |order| + 1
    ensures multiset(r) == multiset(order) + multiset{i}
  {
    if order == [] then [i]
    else if Lt(vs[order[0]].date, vs[i].date) then [i] + order
    else
      assert order == [order[0]] + order[1..];
      [order[0]] + InsertDesc(vs, order[1..], i)
  }

  /**
   * `sorted(versions[:n], key=lambda v: v.date, reverse=True)`, as the positions of the versions
   * in the order the stable sort yields them.
   */
  function SortDesc(vs: seq<Version>, n: nat): (r: seq<nat>)
    requires n <= |vs|
    ensures InRange(vs, r) && |r| == n
  {
    if n == 0 then [] else InsertDesc(vs, SortDesc(vs, n - 1), n - 1)
  }

  /** The sort is a permutation: it yields each of the positions `0 .. n - 1` exactly once. */
  lemma {:induction false} SortDescPermutes(vs: seq<Version>, n: nat)
    requires n <= |vs|
    ensures multiset(SortDesc(vs, n)) == multiset(Positions(n))
  {
    if n > 0 {
      SortDescPermutes(vs, n - 1);
    }
  }

  /** The positions `0, 1, ..., n - 1`: the list of versions as given. */
  function Positions(n: nat): (r: seq<nat>)
    ensures |r| == n && forall k :: 0 <= k < n ==> r[k] == k
  {
    if n == 0 then [] else Positions(n - 1) + [n - 1]
  }

  /** `Versions(*versions)`: accepted unless sorting by date, newest first, would move a version. */
  function NewVersions(vs: seq<Version>): (r: Result<Versions, OrderError>)
    ensures r.Ok? <==> NonIncreasing(vs)
    ensures r.Ok? ==> r.value.versions == vs
  {
    SortCheckIffNonIncreasing(vs);
    if SortDesc(vs, |vs|) == Positions(|vs|) then Ok(Versions(vs)) else Err(NotSortedDescending)
  }

  lemma {:induction false} InsertDescSorted(vs: seq<Version>, order: seq<nat>, i: nat)
    requires i < |vs| && InRange(vs, order) && SortedBy(vs, order)
    ensures SortedBy(vs, InsertDesc(vs, order, i))
  {
    var r := InsertDesc(vs, order, i);
    if order == [] {
    } else if Lt(vs[order[0]].date, vs[i].date) {
      forall a, b | 0 <= a < b < |r| ensures Le(vs[r[b]].date, vs[r[a]].date) {
        if a == 0 {
          if b > 1 { LeTransitive(vs[order[b - 1]].date, vs[order[0]].date, vs[i].date); }
        }
      }
    } else {
      var rest := InsertDesc(vs, order[1..], i);
      InsertDescSorted(vs, order[1..], i);
      LeTotal(vs[order[0]].date, vs[i].date);
      InsertDescBelow(vs, order[1..], i, vs[order[0]].date);
      assert r == [order[0]] + rest;
    }
  }

  /** Inserting a position no newer than `top` among positions no newer than `top` yields positions no newer than `top`. */
  lemma {:induction false} InsertDescBelow(vs: seq<Version>, order: seq<nat>, i: nat, top: Date)
    requires i < |vs| && InRange(vs, order) && Le(vs[i].date, top)
    requires forall k :: 0 <= k < |order| ==> Le(vs[order[k]].date, top)
    ensures forall k :: 0 <= k < |order| + 1 ==> Le(vs[InsertDesc(vs, order, i)[k]].date, top)
  {
    if order != [] && !Lt(vs[order[0]].date, vs[i].date) {
      InsertDescBelow(vs, order[1..], i, top);
    }
  }

  lemma {:induction false} SortDescSorted(vs: seq<Version>, n: nat)
    requires n <= |vs|
    ensures SortedBy(vs, SortDesc(vs, n))
  {
    if n > 0 {
      SortDescSorted(vs, n - 1);
      InsertDescSorted(vs, SortDesc(vs, n - 1), n - 1);
    }
  }

  /** A position no older than any already placed goes last. */
  lemma {:induction false} InsertDescLast(vs: seq<Version>, order: seq<nat>, i: nat)
    requires i < |vs| && InRange(vs, order)
    requires forall k :: 0 <= k < |order| ==> Le(vs[i].date, vs[order[k]].date)
    ensures InsertDesc(vs, order, i) == order + [i]
  {
    if order != [] {
      LeTotal(vs[i].date, vs[order[0]].date);
      if Lt(vs[order[0]].date, vs[i].date) {
        LeAntisymmetric(vs[order[0]].date, vs[i].date);
      }
      InsertDescLast(vs, order[1..], i);
      assert order == [order[0]] + order[1..];
    }
  }

  /** Sorting versions that are already newest first changes nothing. */
  lemma {:induction false} SortDescOfSorted(vs: seq<Version>, n: nat)
    requires n <= |vs| && NonIncreasing(vs)
    ensures SortDesc(vs, n) == Positions(n)
  {
    if n > 0 {
      SortDescOfSorted(vs, n - 1);
      var order := Positions(n - 1);
      forall k | 0 <= k < |order| ensures Le(vs[n - 1].date, vs[order[k]].date) {
        assert order[k] == k < n - 1;
      }
      InsertDescLast(vs, order, n - 1);
      assert SortDesc(vs, n) == InsertDesc(vs, order, n - 1);
    }
  }

  /** Sorting leaves the versions in place exactly when they are already newest first. */
  lemma SortCheckIffNonIncreasing(vs: seq<Version>)
    ensures SortDesc(vs, |vs|) == Positions(|vs|) <==> NonIncreasing(vs)
  {
    SortDescSorted(vs, |vs|);
    if NonIncreasing(vs) {
      SortDescOfSorted(vs, |vs|);
    } else if SortDesc(vs, |vs|) == Positions(|vs|) {
      var order := Positions(|vs|);
      assert SortedBy(vs, order);
      forall i, j | 0 <= i < j < |vs| ensures Le(vs[j].date, vs[i].date) {
        assert order[i] == i && order[j] == j;
      }
    }
  }

  /** Equal dates are accepted: a chain of one date repeated passes the check. */
  lemma EqualDatesAccepted(d: Date, first: seq<VersionChange>, second: seq<VersionChange>)
    ensures NewVersions([Version(d, first), Version(d, second)]).Ok?
  {
  }

  // ---------------------------------------------------------------------------------------------
  // Derived indexes: `versioned_schemas`, `versioned_enums`, `_version_changes_to_version_mapping`

  /** Every version change of the chain, newest version first, each version's in declared order. */
  function AllChanges(vs: seq<Version>): (r: seq<VersionChange>)
  {
    if vs == [] then [] else vs[0].changes + AllChanges(vs[1..])
  }

  /** The schema or enum classes that schema and enum instructions target, in order. */
  function Targets(instructions: seq<Instruction>): seq<ClassRef>
  {
    if instructions == [] then []
    else
      var rest := Targets(instructions[1..]);
      match instructions[0]
      case AlterSchema(schema) => [schema] + rest
      case AlterEnum(enumeration) => [enumeration] + rest
      case _ => rest
  }

  function SchemaRefs(changes: seq<VersionChange>): seq<ClassRef>
  {
    if changes == [] then [] else Targets(changes[0].schemaInstructions) + SchemaRefs(changes[1..])
  }

  function EnumRefs(changes: seq<VersionChange>): seq<ClassRef>
  {
    if changes == [] then [] else Targets(changes[0].enumInstructions) + EnumRefs(changes[1..])
  }

  /** The key the source builds: `__module__ + __name__`, with no separator. */
  function ConcatKey(c: ClassRef): string
  {
    c.moduleName + c.name
  }

  /** The fully qualified name `__module__ + "." + __name__`. */
  function QualifiedKey(c: ClassRef): string
  {
    c.moduleName + "." + c.name
  }

  /** A dict comprehension `{key(c): c for c in refs}`: a later class replaces an earlier one with the same key. */
  function IndexBy(refs: seq<ClassRef>, key: ClassRef -> string): (m: map<string, ClassRef>)
    ensures forall k :: k in m ==> key(m[k]) == k && m[k] in refs
    ensures forall c :: c in refs ==> key(c) in m
  {
    if refs == [] then map[]
    else
      var last := refs[|refs| - 1];
      var m := IndexBy(refs[..|refs| - 1], key);
      assert forall c :: c in refs[..|refs| - 1] ==> c in refs;
      assert forall c :: c in refs ==> c in refs[..|refs| - 1] || c == last;
      m[key(last) := last]
  }

  /** `versioned_schemas` as written, keyed by `__module__ + __name__`. */
  function VersionedSchemasAsWritten(chain: Versions): (m: map<string, ClassRef>)
    ensures forall k :: k in m ==> ConcatKey(m[k]) == k && m[k] in SchemaRefs(AllChanges(chain.versions))
    ensures forall c :: c in SchemaRefs(AllChanges(chain.versions)) ==> ConcatKey(c) in m
  {
    IndexBy(SchemaRefs(AllChanges(chain.versions)), ConcatKey)
  }

  /** `versioned_schemas`, keyed by the qualified name. */
  function VersionedSchemas(chain: Versions): (m: map<string, ClassRef>)
    ensures forall k :: k in m ==> QualifiedKey(m[k]) == k && m[k] in SchemaRefs(AllChanges(chain.versions))
    ensures forall c :: c in SchemaRefs(AllChanges(chain.versions)) ==> QualifiedKey(c) in m
  {
    IndexBy(SchemaRefs(AllChanges(chain.versions)), QualifiedKey)
  }

  /** `versioned_enums` as written, keyed by `__module__ + __name__`. */
  function VersionedEnumsAsWritten(chain: Versions): (m: map<string, ClassRef>)
    ensures forall k :: k in m ==> ConcatKey(m[k]) == k && m[k] in EnumRefs(AllChanges(chain.versions))
    ensures forall c :: c in EnumRefs(AllChanges(chain.versions)) ==> ConcatKey(c) in m
  {
    IndexBy(EnumRefs(AllChanges(chain.versions)), ConcatKey)
  }

  /** `versioned_enums`, keyed by the qualified name. */
  function VersionedEnums(chain: Versions): (m: map<string, ClassRef>)
    ensures forall k :: k in m ==> QualifiedKey(m[k]) == k && m[k] in EnumRefs(AllChanges(chain.versions))
    ensures forall c :: c in EnumRefs(AllChanges(chain.versions)) ==> QualifiedKey(c) in m
  {
    IndexBy(EnumRefs(AllChanges(chain.versions)), QualifiedKey)
  }

  /** In `m + "." + n` with no '.' in `n`, the separator is the last '.'. */
  lemma SeparatorIsLastDot(key: string, m: string, n: string)
    requires key == m + "." + n && '.' !in n
    ensures key[|m|] == '.'
    ensures forall k :: |m| < k < |key| ==> key[k] != '.'
  {
    assert forall k :: |m| < k < |key| ==> key[k] == n[k - |m| - 1];
  }

  /** A qualified name determines the class when class names hold no '.', as Python's `__name__` never does. */
  lemma QualifiedKeyInjective(a: ClassRef, b: ClassRef)
    requires '.' !in a.name && '.' !in b.name
    requires QualifiedKey(a) == QualifiedKey(b)
    ensures a == b
  {
    var key := QualifiedKey(a);
    SeparatorIsLastDot(key, a.moduleName, a.name);
    SeparatorIsLastDot(key, b.moduleName, b.name);
    assert |a.moduleName| == |b.moduleName|;
    assert a.moduleName == key[..|a.moduleName|] == b.moduleName;
    assert a.name == key[|a.moduleName| + 1..] == b.name;
  }

  /** With qualified keys every class a schema instruction targets is found under its own name. */
  lemma VersionedSchemasComplete(chain: Versions)
    requires forall c :: c in SchemaRefs(AllChanges(chain.versions)) ==> '.' !in c.name
    ensures forall c :: c in SchemaRefs(AllChanges(chain.versions)) ==>
              QualifiedKey(c) in VersionedSchemas(chain) && VersionedSchemas(chain)[QualifiedKey(c)] == c
  {
    var m := VersionedSchemas(chain);
    forall c | c in SchemaRefs(AllChanges(chain.versions))
      ensures QualifiedKey(c) in m && m[QualifiedKey(c)] == c
    {
      QualifiedKeyInjective(m[QualifiedKey(c)], c);
    }
  }

  /** With qualified keys every class an enum instruction targets is found under its own name. */
  lemma VersionedEnumsComplete(chain: Versions)
    requires forall c :: c in EnumRefs(AllChanges(chain.versions)) ==> '.' !in c.name
    ensures forall c :: c in EnumRefs(AllChanges(chain.versions)) ==>
              QualifiedKey(c) in VersionedEnums(chain) && VersionedEnums(chain)[QualifiedKey(c)] == c
  {
    var m := VersionedEnums(chain);
    forall c | c in EnumRefs(AllChanges(chain.versions))
      ensures QualifiedKey(c) in m && m[QualifiedKey(c)] == c
    {
      QualifiedKeyInjective(m[QualifiedKey(c)], c);
    }
  }

  /** The chain of the collision example below: one version change targeting both schemas. */
  function CollisionChain(first: ClassRef, second: ClassRef): Versions
  {
    var change := VersionChange("Change", [AlterSchema(first), AlterSchema(second)],
                                [AlterSchema(first), AlterSchema(second)], [], [], map[]);
    Versions([Version(Date(2001, 1, 1), [change]), Version(Date(2000, 1, 1), [])])
  }

  lemma CollisionChainSchemas(first: ClassRef, second: ClassRef)
    ensures SchemaRefs(AllChanges(CollisionChain(first, second).versions)) == [first, second]
  {
    var vs := CollisionChain(first, second).versions;
    var change := vs[0].changes[0];
    assert vs[1..][1..] == [];
    assert AllChanges(vs[1..]) == [];
    assert AllChanges(vs) == [change];
    var instructions := [AlterSchema(first), AlterSchema(second)];
    assert instructions[1..][1..] == [];
    assert Targets(instructions[1..]) == [second];
    assert Targets(instructions) == [first, second];
    assert SchemaRefs([change]) == [first, second];
  }

  lemma IndexByPair(first: ClassRef, second: ClassRef, key: ClassRef -> string)
    ensures IndexBy([first, second], key) == map[key(first) := first][key(second) := second]
  {
    assert [first, second][..1] == [first];
    assert [first][..0] == [];
  }

  /**
   * As written, two schemas whose module and class names concatenate to the same text share a
   * key, and one of them is lost: `app.ab` + `C` and `app.a` + `bC` both give `app.abC`.
   */
  lemma ConcatKeyLosesSchema()
    ensures var first, second := ClassRef("app.ab", "C"), ClassRef("app.a", "bC");
            && first != second
            && ConcatKey(first) == ConcatKey(second)
            && VersionedSchemasAsWritten(CollisionChain(first, second)) == map[ConcatKey(first) := second]
  {
    var first, second := ClassRef("app.ab", "C"), ClassRef("app.a", "bC");
    assert "app.ab" + "C" == "app.abC" == "app.a" + "bC";
    CollisionChainSchemas(first, second);
    IndexByPair(first, second, ConcatKey);
  }

  /** With qualified keys the same two schemas keep separate entries. */
  lemma QualifiedKeyKeepsBoth()
    ensures var first, second := ClassRef("app.ab", "C"), ClassRef("app.a", "bC");
            var m := VersionedSchemas(CollisionChain(first, second));
            && m[QualifiedKey(first)] == first && m[QualifiedKey(second)] == second
  {
    var first, second := ClassRef("app.ab", "C"), ClassRef("app.a", "bC");
    CollisionChainSchemas(first, second);
    VersionedSchemasComplete(CollisionChain(first, second));
  }

  /** The names of a list of version changes. */
  function ChangeNames(changes: seq<VersionChange>): set<string>
  {
    set j | 0 <= j < |changes| :: changes[j].name
  }

  /**
   * `_version_changes_to_version_mapping`: each version change to the date of its version, a
   * later version replacing an earlier one for a change listed twice.
   */
  function ChangeDates(vs: seq<Version>): (r: map<string, Date>)
    ensures forall name :: name in r <==> exists k :: 0 <= k < |vs| && name in ChangeNames(vs[k].changes)
  {
    if vs == [] then map[]
    else
      var last := vs[|vs| - 1];
      ChangeDates(vs[..|vs| - 1]) + map name | name in ChangeNames(last.changes) :: last.date
  }

  /** A change is mapped to the date of the last version that lists it. */
  lemma {:induction false} ChangeDatesLast(vs: seq<Version>, i: nat, name: string)
    requires i < |vs| && name in ChangeNames(vs[i].changes)
    requires forall k :: i < k < |vs| ==> name !in ChangeNames(vs[k].changes)
    ensures name in ChangeDates(vs) && ChangeDates(vs)[name] == vs[i].date
  {
    var n := |vs| - 1;
    if i < n {
      ChangeDatesLast(vs[..n], i, name);
    }
  }

  /** A change that no version lists is not in the mapping. */
  lemma {:induction false} ChangeDatesMissing(vs: seq<Version>, name: string)
    requires forall k :: 0 <= k < |vs| ==> name !in ChangeNames(vs[k].changes)
    ensures name !in ChangeDates(vs)
  {
    if vs != [] {
      ChangeDatesMissing(vs[..|vs| - 1], name);
    }
  }

  /** `is_active`: whether the change's version is at or before the requested version. */
  function IsActive(chain: Versions, change: string, requested: Option<Date>): (r: Result<bool, LookupError>)
    ensures requested.None? ==> r == Ok(false)
  {
    match requested
    case None => Ok(false)
    case Some(d) =>
      var dates := ChangeDates(chain.versions);
      if change in dates then Ok(Le(dates[change], d)) else Err(UnknownVersionChange(change))
  }

  /**
   * With a requested version, a change is active exactly when its version's date is at or before
   * it; a change of no version raises the `KeyError`.
   */
  lemma IsActiveIffNotNewer(chain: Versions, i: nat, change: string, d: Date)
    requires i < |chain.versions| && change in ChangeNames(chain.versions[i].changes)
    requires forall k :: i < k < |chain.versions| ==> change !in ChangeNames(chain.versions[k].changes)
    ensures IsActive(chain, change, Some(d)) == Ok(Le(chain.versions[i].date, d))
  {
    ChangeDatesLast(chain.versions, i, change);
  }

  lemma IsActiveUnknown(chain: Versions, change: string, d: Date)
    requires forall k :: 0 <= k < |chain.versions| ==> change !in ChangeNames(chain.versions[k].changes)
    ensures IsActive(chain, change, Some(d)) == Err(UnknownVersionChange(change))
  {
    ChangeDatesMissing(chain.versions, change);
  }

  // ---------------------------------------------------------------------------------------------
  // Response migration: `data_to_version`

  /** One version change's response instruction for the endpoint, if it has one. */
  function ApplyChange(change: VersionChange, endpoint: Endpoint, data: Payload): Payload
  {
    if endpoint in change.responseInstructions then change.responseInstructions[endpoint].migrate(data) else data
  }

  /**
   * The changes' response instructions for the endpoint, in the order the changes are listed;
   * changes without an instruction for the endpoint leave the payload as it is.
   */
  function ApplyChanges(changes: seq<VersionChange>, endpoint: Endpoint, data: Payload): (r: Payload)
    ensures (forall j :: 0 <= j < |changes| ==> endpoint !in changes[j].responseInstructions) ==> r == data
  {
    if changes == [] then data else ApplyChanges(changes[1..], endpoint, ApplyChange(changes[0], endpoint, data))
  }

  /** Every change of every listed version, in chain order, with no stopping point. */
  function ApplyVersions(vs: seq<Version>, endpoint: Endpoint, data: Payload): Payload
  {
    if vs == [] then data else ApplyVersions(vs[1..], endpoint, ApplyChanges(vs[0].changes, endpoint, data))
  }

  /**
   * The walk of `data_to_version`: apply each version's changes until a version at or before
   * `version`. It is a fold over the prefix of the chain before that stopping point.
   */
  ghost function Migrate(vs: seq<Version>, endpoint: Endpoint, data: Payload, version: Date): (r: Payload)
    ensures r == ApplyVersions(vs[..StopIndex(vs, version)], endpoint, data)
  {
    if vs == [] || Le(vs[0].date, version) then data
    else
      var r := Migrate(vs[1..], endpoint, ApplyChanges(vs[0].changes, endpoint, data), version);
      assert vs[..StopIndex(vs, version)][1..] == vs[1..][..StopIndex(vs[1..], version)];
      r
  }

  /** `Versions.data_to_version`. */
  method DataToVersion(chain: Versions, endpoint: Endpoint, data: Payload, version: Date) returns (result: Payload)
    ensures result == Migrate(chain.versions, endpoint, data, version)
  {
    var vs := chain.versions;
    result := data;
    var i := 0;
    while i < |vs|
      invariant 0 <= i <= |vs|
      invariant Migrate(vs[i..], endpoint, result, version) == Migrate(vs, endpoint, data, version)
    {
      if Le(vs[i].date, version) {
        break;
      }
      var changes := vs[i].changes;
      ghost var before := result;
      for j := 0 to |changes|
        invariant ApplyChanges(changes[j..], endpoint, result) == ApplyChanges(changes, endpoint, before)
      {
        assert changes[j..][1..] == changes[j + 1..];
        if endpoint in changes[j].responseInstructions {
          result := changes[j].responseInstructions[endpoint].migrate(result);
        }
      }
      assert vs[i..][1..] == vs[i + 1..];
      i := i + 1;
    }
  }

  /** Where the walk stops: the first version at or before the requested one, or the end of the chain. */
  function StopIndex(vs: seq<Version>, version: Date): (r: nat)
    ensures r <= |vs|
    ensures forall k :: 0 <= k < r ==> Lt(version, vs[k].date)
    ensures r < |vs| ==> Le(vs[r].date, version)
  {
    if vs == [] || Le(vs[0].date, version) then 0
    else
      LeTotal(vs[0].date, version);
      1 + StopIndex(vs[1..], version)
  }

  /** In a newest-first chain the prefix before the stopping point holds exactly the versions newer than requested. */
  lemma StopIndexSplitsChain(vs: seq<Version>, version: Date)
    requires NonIncreasing(vs)
    ensures forall k :: 0 <= k < |vs| ==> (k < StopIndex(vs, version) <==> Lt(version, vs[k].date))
  {
    var stop := StopIndex(vs, version);
    forall k | stop <= k < |vs| ensures !Lt(version, vs[k].date) {
      LeTransitive(vs[k].date, vs[stop].date, version);
    }
  }

  /** The versions strictly newer than `version`, in chain order. */
  ghost function NewerThan(vs: seq<Version>, version: Date): seq<Version>
  {
    if vs == [] then []
    else (if Lt(version, vs[0].date) then [vs[0]] else []) + NewerThan(vs[1..], version)
  }

  lemma {:induction false} NewerThanIsPrefix(vs: seq<Version>, version: Date)
    requires NonIncreasing(vs)
    ensures NewerThan(vs, version) == vs[..StopIndex(vs, version)]
  {
    if vs != [] {
      assert NonIncreasing(vs[1..]) by {
        forall i, j | 0 <= i < j < |vs[1..]| ensures Le(vs[1..][j].date, vs[1..][i].date) {
          assert vs[1..][j] == vs[j + 1] && vs[1..][i] == vs[i + 1];
        }
      }
      NewerThanIsPrefix(vs[1..], version);
      StopIndexSplitsChain(vs, version);
      StopIndexSplitsChain(vs[1..], version);
      if Lt(version, vs[0].date) {
        assert vs[..StopIndex(vs, version)] == [vs[0]] + vs[1..][..StopIndex(vs[1..], version)];
      } else {
        LeTotal(vs[0].date, version);
        if |vs| > 1 {
          LeTransitive(vs[1].date, vs[0].date, version);
          assert vs[1..][0] == vs[1];
        }
      }
    }
  }

  /**
   * In a newest-first chain, `data_to_version` applies the response instructions of exactly the
   * versions newer than the requested one, in chain order.
   */
  lemma MigrateAppliesNewerVersions(vs: seq<Version>, endpoint: Endpoint, data: Payload, version: Date)
    requires NonIncreasing(vs)
    ensures Migrate(vs, endpoint, data, version) == ApplyVersions(NewerThan(vs, version), endpoint, data)
  {
    NewerThanIsPrefix(vs, version);
  }

  /** Changes compose in list order. */
  lemma {:induction false} ApplyChangesAppend(a: seq<VersionChange>, b: seq<VersionChange>, endpoint: Endpoint, data: Payload)
    ensures ApplyChanges(a + b, endpoint, data) == ApplyChanges(b, endpoint, ApplyChanges(a, endpoint, data))
  {
    if a == [] {
      assert a + b == b;
    } else {
      assert (a + b)[0] == a[0] && (a + b)[1..] == a[1..] + b;
      ApplyChangesAppend(a[1..], b, endpoint, ApplyChange(a[0], endpoint, data));
    }
  }

  /** Versions compose in chain order: the newer versions' instructions run first. */
  lemma {:induction false} ApplyVersionsAppend(a: seq<Version>, b: seq<Version>, endpoint: Endpoint, data: Payload)
    ensures ApplyVersions(a + b, endpoint, data) == ApplyVersions(b, endpoint, ApplyVersions(a, endpoint, data))
  {
    if a == [] {
      assert a + b == b;
    } else {
      assert (a + b)[0] == a[0] && (a + b)[1..] == a[1..] + b;
      ApplyVersionsAppend(a[1..], b, endpoint, ApplyChanges(a[0].changes, endpoint, data));
    }
  }

  /** The whole chain as one list of changes: `ApplyVersions` runs `AllChanges` in order. */
  lemma {:induction false} ApplyVersionsIsAllChanges(vs: seq<Version>, endpoint: Endpoint, data: Payload)
    ensures ApplyVersions(vs, endpoint, data) == ApplyChanges(AllChanges(vs), endpoint, data)
  {
    if vs != [] {
      ApplyVersionsIsAllChanges(vs[1..], endpoint, ApplyChanges(vs[0].changes, endpoint, data));
      ApplyChangesAppend(vs[0].changes, AllChanges(vs[1..]), endpoint, data);
    }
  }

  /**
   * The payload comes back unchanged when no version change the walk passes has a response
   * instruction for the endpoint; in particular when the requested version is at least the newest.
   */
  lemma {:induction false} MigrateUnchanged(vs: seq<Version>, endpoint: Endpoint, data: Payload, version: Date)
    requires forall k, j :: 0 <= k < StopIndex(vs, version) && 0 <= j < |vs[k].changes| ==>
               endpoint !in vs[k].changes[j].responseInstructions
    ensures Migrate(vs, endpoint, data, version) == data
  {
    if vs != [] && !Le(vs[0].date, version) {
      assert forall k :: 0 <= k < StopIndex(vs[1..], version) ==> vs[1..][k] == vs[k + 1];
      MigrateUnchanged(vs[1..], endpoint, data, version);
    }
  }

  /**
   * A two-version chain whose newer version removes something from an endpoint's response: a
   * request for the older version gets the migrated payload, a request for the newer one the
   * payload as it is.
   */
  lemma TwoVersionScenario(older: Date, newer: Date, endpoint: Endpoint, removeSecret: Payload -> Payload, data: Payload)
    requires Lt(older, newer)
    ensures var change := VersionChange("RemoveSecret", [], [], [], [],
                                        map[endpoint := ResponseInstruction([endpoint], removeSecret)]);
            var vs := [Version(newer, [change]), Version(older, [])];
            && NewVersions(vs).Ok?
            && Migrate(vs, endpoint, data, older) == removeSecret(data)
            && Migrate(vs, endpoint, data, newer) == data
  {
    var change := VersionChange("RemoveSecret", [], [], [], [],
                                map[endpoint := ResponseInstruction([endpoint], removeSecret)]);
    var vs := [Version(newer, [change]), Version(older, [])];
    assert ApplyChanges([change], endpoint, data) == removeSecret(data);
    assert vs[1..] == [Version(older, [])];
  }
}
