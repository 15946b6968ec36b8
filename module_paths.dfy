/**
 * The module-path rewriting of `get_another_version_of_module` and `get_another_version_of_cls`
 * (universi/_utils.py): given a module of the `latest` package tree, compute the dotted name of
 * the same module inside a generated version directory such as `v2021_01_01`.
 *
 * Paths are modelled the way `pathlib.PurePosixPath` splits them, dotted module names as their
 * components; only the computation between `inspect.getsourcefile` and `importlib.import_module`
 * is modelled.
 */
module ModulePaths {
  import opened Wrappers
  import opened Classes

  /**
   * A path as `PurePosixPath.parts` splits it: its anchor ("/" when absolute, "" when relative)
   * and the names below the anchor.
   */
  datatype Path = Path(anchor: string, names: seq<string>)

  datatype PathError =
    | NotDefinedInFile(moduleName: string)       // `inspect.getsourcefile` gave None
    | NotRelativeTo(file: Path, root: Path)  // `Path.relative_to` raised ValueError
    | EmptyName(path: Path)                  // `Path.with_suffix` raised ValueError on an empty name
    | IndexOutOfRange(index: int, length: nat)  // the list assignment raised IndexError

  const InitFile := "__init__.py"

  /** `Path.name`: the last name, or "" for a bare anchor. */
  function Name(p: Path): string
  {
    if p.names == [] then "" else p.names[|p.names| - 1]
  }

  /** `Path.parent`: the path without its last name; a bare anchor is its own parent. */
  function Parent(p: Path): (r: Path)
    ensures r.anchor == p.anchor
    ensures p.names != [] ==> r.names + [Name(p)] == p.names
    ensures p.names == [] ==> r == p
  {
    if p.names == [] then p else Path(p.anchor, p.names[..|p.names| - 1])
  }

  /** The index of the last '.' in `s`, if there is one. */
  function LastDot(s: string): (r: Option<nat>)
    ensures r.None? ==> '.' !in s
    ensures r.Some? ==> r.value < |s| && s[r.value] == '.' && '.' !in s[r.value + 1..]
  {
    if s == [] then None
    else if s[|s| - 1] == '.' then Some(|s| - 1)
    else
      var r := LastDot(s[..|s| - 1]);
      assert r.Some? ==> s[r.value + 1..] == s[..|s| - 1][r.value + 1..] + [s[|s| - 1]];
      assert r.None? ==> s == s[..|s| - 1] + [s[|s| - 1]];
      r
  }

  /**
   * `name` with its suffix removed, as `with_suffix("")` does: the suffix starts at the last
   * '.', which must be neither the first nor the last character of the name.
   */
  function StripSuffix(name: string): (r: string)
    ensures '.' !in name ==> r == name
    ensures |r| <= |name| && r == name[..|r|]
  {
    match LastDot(name)
    case Some(i) => if 0 < i < |name| - 1 then name[..i] else name
    case None => name
  }

  /**
   * The relative path parts the module's file gives: an `__init__.py` stands for its package
   * directory, the path is taken relative to the parent of the version directory, and the
   * suffix of its last part is dropped.
   */
  function RelativeParts(file: Path, versionDir: Path): (r: Result<seq<string>, PathError>)
    ensures r.Ok? ==> |r.value| >= 1
  {
    var source := if Name(file) == InitFile then Parent(file) else file;
    var root := Parent(versionDir);
    if source.anchor != root.anchor || !(root.names <= source.names) then
      Err(NotRelativeTo(source, root))
    else
      var relative := source.names[|root.names|..];
      if relative == [] then Err(EmptyName(Path("", [])))
      else Ok(relative[..|relative| - 1] + [StripSuffix(relative[|relative| - 1])])
  }

  /** `s.split(".")`. */
  function Split(s: string): (r: seq<string>)
    ensures |r| >= 1
    ensures forall k :: 0 <= k < |r| ==> '.' !in r[k]
  {
    if s == [] then [""]
    else if s[0] == '.' then [""] + Split(s[1..])
    else
      var rest := Split(s[1..]);
      [[s[0]] + rest[0]] + rest[1..]
  }

  /** `".".join(parts)`: with two or more parts, a '.' follows the first. */
  function Join(parts: seq<string>): (r: string)
    ensures |parts| > 1 ==> |parts[0]| < |r| && r[|parts[0]|] == '.'
  {
    if parts == [] then ""
    else if |parts| == 1 then parts[0]
    else parts[0] + "." + Join(parts[1..])
  }

  /** `get_another_version_of_module`, up to the import of the name it computes. */
  function AnotherVersionOfModule(moduleName: string, sourceFile: Option<Path>, versionDir: Path): (r: Result<string, PathError>)
    ensures sourceFile.None? ==> r == Err(NotDefinedInFile(moduleName))
    ensures sourceFile.Some? && RelativeParts(sourceFile.value, versionDir).Err? ==>
              r == Err(RelativeParts(sourceFile.value, versionDir).error)
    ensures sourceFile.Some? && RelativeParts(sourceFile.value, versionDir).Ok? ==>
              (r.Ok? <==> |RelativeParts(sourceFile.value, versionDir).value| <= |Split(moduleName)|)
  {
    match sourceFile
    case None => Err(NotDefinedInFile(moduleName))
    case Some(file) =>
      match RelativeParts(file, versionDir)
      case Err(e) => Err(e)
      case Ok(relative) =>
        var parts := Split(moduleName);
        if |relative| > |parts| then Err(IndexOutOfRange(-|relative|, |parts|))
        else Ok(Join(parts[|parts| - |relative| := Name(versionDir)]))
  }

  /** `get_another_version_of_cls`: the class of the same name in the rewritten module. */
  function AnotherVersionOfClass(cls: ClassRef, sourceFile: Option<Path>, versionDir: Path): (r: Result<ClassRef, PathError>)
    ensures r.Ok? ==> r.value.name == cls.name
    ensures r.Ok? <==> AnotherVersionOfModule(cls.moduleName, sourceFile, versionDir).Ok?
    ensures r.Ok? ==> r.value.moduleName == AnotherVersionOfModule(cls.moduleName, sourceFile, versionDir).value
  {
    match AnotherVersionOfModule(cls.moduleName, sourceFile, versionDir)
    case Ok(rewritten) => Ok(ClassRef(rewritten, cls.name))
    case Err(e) => Err(e)
  }

  // ---------------------------------------------------------------------------------------------
  // Splitting and joining dotted names

  lemma {:induction false} JoinSplit(s: string)
    ensures Join(Split(s)) == s
  {
    if s == [] {
    } else if s[0] == '.' {
      JoinSplit(s[1..]);
      assert s == "." + s[1..];
    } else {
      JoinSplit(s[1..]);
      var rest := Split(s[1..]);
      if |rest| == 1 {
        assert s == [s[0]] + rest[0];
      } else {
        assert rest == [rest[0]] + rest[1..];
        assert Join(rest) == rest[0] + "." + Join(rest[1..]);
        assert s == [s[0]] + rest[0] + "." + Join(rest[1..]);
      }
    }
  }

  lemma {:induction false} SplitNoDot(x: string)
    requires '.' !in x
    ensures Split(x) == [x]
  {
    if x != [] {
      assert '.' !in x[1..] by { assert forall k :: 0 <= k < |x[1..]| ==> x[1..][k] == x[k + 1]; }
      SplitNoDot(x[1..]);
      assert x == [x[0]] + x[1..];
    }
  }

  lemma {:induction false} SplitDot(x: string, rest: string)
    requires '.' !in x
    ensures Split(x + "." + rest) == [x] + Split(rest)
  {
    if x == [] {
      assert x + "." + rest == "." + rest;
    } else {
      assert '.' !in x[1..] by { assert forall k :: 0 <= k < |x[1..]| ==> x[1..][k] == x[k + 1]; }
      SplitDot(x[1..], rest);
      var s := x + "." + rest;
      assert s[0] == x[0] && s[1..] == x[1..] + "." + rest;
      assert [x[0]] + x[1..] == x;
    }
  }

  lemma {:induction false} SplitJoin(parts: seq<string>)
    requires parts != []
    requires forall k :: 0 <= k < |parts| ==> '.' !in parts[k]
    ensures Split(Join(parts)) == parts
  {
    if |parts| == 1 {
      SplitNoDot(parts[0]);
    } else {
      SplitJoin(parts[1..]);
      SplitDot(parts[0], Join(parts[1..]));
      assert parts == [parts[0]] + parts[1..];
    }
  }

  // ---------------------------------------------------------------------------------------------
  // Properties of the rewriting

  /**
   * The rewritten name has as many components as the module name, and exactly the component at
   * index `len(parts) - len(relative_parts)` becomes the version directory's name.
   */
  lemma ReplacesOneComponent(moduleName: string, file: Path, versionDir: Path)
    requires AnotherVersionOfModule(moduleName, Some(file), versionDir).Ok?
    requires '.' !in Name(versionDir)
    ensures var parts := Split(moduleName);
            var out := Split(AnotherVersionOfModule(moduleName, Some(file), versionDir).value);
            var i := |parts| - |RelativeParts(file, versionDir).value|;
            && 0 <= i < |parts|
            && |out| == |parts|
            && out[i] == Name(versionDir)
            && forall k :: 0 <= k < |parts| && k != i ==> out[k] == parts[k]
  {
    var parts := Split(moduleName);
    var i := |parts| - |RelativeParts(file, versionDir).value|;
    SplitJoin(parts[i := Name(versionDir)]);
  }

  /** A module that already lives in the version directory keeps its name. */
  lemma AlreadyInVersion(moduleName: string, file: Path, versionDir: Path)
    requires AnotherVersionOfModule(moduleName, Some(file), versionDir).Ok?
    requires Split(moduleName)[|Split(moduleName)| - |RelativeParts(file, versionDir).value|] == Name(versionDir)
    ensures AnotherVersionOfModule(moduleName, Some(file), versionDir) == Ok(moduleName)
  {
    var parts := Split(moduleName);
    var relative := RelativeParts(file, versionDir).value;
    assert parts[|parts| - |relative| := Name(versionDir)] == parts;
    assert AnotherVersionOfModule(moduleName, Some(file), versionDir) == Ok(Join(parts));
    JoinSplit(moduleName);
  }

  /** A package's `__init__.py` gives the same relative parts as the package directory itself. */
  lemma InitFileIsPackage(dir: Path, versionDir: Path)
    requires Name(dir) != InitFile
    ensures RelativeParts(Path(dir.anchor, dir.names + [InitFile]), versionDir) == RelativeParts(dir, versionDir)
  {
    assert Parent(Path(dir.anchor, dir.names + [InitFile])) == dir;
  }

  /** A file outside the parent of the version directory is rejected. */
  lemma OutsideRootRejected(moduleName: string, file: Path, versionDir: Path)
    requires Name(file) != InitFile
    requires file.anchor != versionDir.anchor || !(Parent(versionDir).names <= file.names)
    ensures AnotherVersionOfModule(moduleName, Some(file), versionDir) == Err(NotRelativeTo(file, Parent(versionDir)))
  {
  }

  lemma SchemasFileStem()
    ensures StripSuffix("schemas.py") == "schemas"
  {
    assert "schemas.py"[..9] == "schemas.p";
    assert "schemas.py"[..9][..8] == "schemas.";
    assert LastDot("schemas.py") == Some(7);
  }

  /** A module file `stem.py` loses exactly its `.py` suffix, whatever dots the stem holds. */
  lemma StripPy(stem: string)
    requires stem != ""
    ensures StripSuffix(stem + ".py") == stem
  {
    var name := stem + ".py";
    assert name[..|name| - 1] == stem + ".p";
    assert (stem + ".p")[..|stem| + 1] == stem + ".";
    assert LastDot(stem + ".") == Some(|stem|);
    assert LastDot(name) == Some(|stem|);
    assert name[..|stem|] == stem;
  }

  /**
   * A module file `dirs/stem.py` below the parent of the version directory gives the relative
   * parts `dirs + [stem]`.
   */
  lemma RelativeModuleFile(anchor: string, root: seq<string>, dirs: seq<string>, stem: string, versionName: string)
    requires stem != "" && stem + ".py" != InitFile
    ensures RelativeParts(Path(anchor, root + dirs + [stem + ".py"]), Path(anchor, root + [versionName]))
            == Ok(dirs + [stem])
  {
    var file := Path(anchor, root + dirs + [stem + ".py"]);
    var relative := dirs + [stem + ".py"];
    assert Name(file) == stem + ".py";
    assert Parent(Path(anchor, root + [versionName])).names == root;
    assert root <= file.names;
    assert file.names[|root|..] == relative;
    assert relative[..|relative| - 1] == dirs;
    StripPy(stem);
  }

  lemma WorkedExample()
    ensures var versionDir := Path("/", ["home", "ovsyanka", "package", "companies", "v2021_01_01"]);
            && RelativeParts(Path("/", ["home", "ovsyanka", "package", "companies", "latest", "schemas.py"]), versionDir)
               == Ok(["latest", "schemas"])
  {
    var versionDir := Path("/", ["home", "ovsyanka", "package", "companies", "v2021_01_01"]);
    var file := Path("/", ["home", "ovsyanka", "package", "companies", "latest", "schemas.py"]);
    var root := ["home", "ovsyanka", "package", "companies"];
    assert "schemas.py"[0] != InitFile[0];
    assert Name(file) != InitFile;
    assert Parent(versionDir).names == root;
    assert file.names == root + ["latest", "schemas.py"];
    assert file.names[|root|..] == ["latest", "schemas.py"];
    assert root <= file.names;
    SchemasFileStem();
    var relative := ["latest", "schemas.py"];
    assert relative[..1] + [StripSuffix(relative[1])] == ["latest", "schemas"];
  }

  lemma WorkedExamplePackage()
    ensures RelativeParts(Path("/", ["home", "ovsyanka", "package", "companies", "latest", "__init__.py"]),
                          Path("/", ["home", "ovsyanka", "package", "companies", "v2021_01_01"]))
            == Ok(["latest"])
  {
    var versionDir := Path("/", ["home", "ovsyanka", "package", "companies", "v2021_01_01"]);
    var dir := Path("/", ["home", "ovsyanka", "package", "companies", "latest"]);
    var root := ["home", "ovsyanka", "package", "companies"];
    assert "latest"[0] != InitFile[0];
    InitFileIsPackage(dir, versionDir);
    assert dir.names + [InitFile] == ["home", "ovsyanka", "package", "companies", "latest", "__init__.py"];
    assert Parent(versionDir).names == root;
    assert dir.names == root + ["latest"];
    assert root <= dir.names;
    assert dir.names[|root|..] == ["latest"];
    assert '.' !in "latest";
    assert ["latest"][..0] + [StripSuffix("latest")] == ["latest"];
  }

  lemma JoinOfComponents(second: string, third: string)
    ensures Join(["package", "companies", third, "schemas"]) == "package.companies." + third + ".schemas"
  {
    assert Join(["schemas"]) == "schemas";
    assert ["package", "companies", third, "schemas"][1..][1..][1..] == ["schemas"];
    assert Join([third, "schemas"]) == third + ".schemas";
    assert Join(["companies", third, "schemas"]) == "companies." + third + ".schemas";
  }

  /** The rewriting, once the relative parts and the components are known. */
  lemma RewriteOf(moduleName: string, file: Path, versionDir: Path, relative: seq<string>, parts: seq<string>)
    requires RelativeParts(file, versionDir) == Ok(relative)
    requires Split(moduleName) == parts && |relative| <= |parts|
    ensures AnotherVersionOfModule(moduleName, Some(file), versionDir) == Ok(Join(parts[|parts| - |relative| := Name(versionDir)]))
  {
  }

  lemma ExampleComponents()
    ensures Split("package.companies.latest.schemas") == ["package", "companies", "latest", "schemas"]
  {
    var parts := ["package", "companies", "latest", "schemas"];
    JoinOfComponents("companies", "latest");
    assert "package.companies." + "latest" + ".schemas" == "package.companies.latest.schemas";
    assert forall k :: 0 <= k < |parts| ==> '.' !in parts[k];
    SplitJoin(parts);
  }

  lemma ExampleRewritten()
    ensures Join(["package", "companies", "latest", "schemas"][2 := "v2021_01_01"]) == "package.companies.v2021_01_01.schemas"
  {
    JoinOfComponents("companies", "v2021_01_01");
    assert ["package", "companies", "latest", "schemas"][2 := "v2021_01_01"] == ["package", "companies", "v2021_01_01", "schemas"];
    assert "package.companies." + "v2021_01_01" + ".schemas" == "package.companies.v2021_01_01.schemas";
  }

  lemma WorkedExampleModule()
    ensures AnotherVersionOfModule("package.companies.latest.schemas",
              Some(Path("/", ["home", "ovsyanka", "package", "companies", "latest", "schemas.py"])),
              Path("/", ["home", "ovsyanka", "package", "companies", "v2021_01_01"]))
            == Ok("package.companies.v2021_01_01.schemas")
  {
    ExampleComponents();
    ExampleRewritten();
    WorkedExample();
    RewriteOf("package.companies.latest.schemas", Path("/", ["home", "ovsyanka", "package", "companies", "latest", "schemas.py"]),
      Path("/", ["home", "ovsyanka", "package", "companies", "v2021_01_01"]), ["latest", "schemas"],
      ["package", "companies", "latest", "schemas"]);
  }
}
