/** Per-dependency metadata: `getDependenciesDescriptions`, `getDependenciesVersions`
    and `getDependenciesNames`, each reading every listed dependency's own
    package.json and collecting one field of it into an object keyed by identifier. */
module Metadata {
  import opened Seqs
  import opened Results

  /** The fields of an installed dependency's package.json that the report shows;
      `description` may be absent. */
  datatype PackageMeta = PackageMeta(name: string, version: string, description: Option<string>)

  /** `readPackageJson(dependency, libPath)`: the parsed
      `libPath/node_modules/<dependency>/package.json`, after `npm install` has been
      run for `libPath` if its `node_modules` was missing; `None` when that file cannot
      be read or parsed. */
  type PackageReader = (string, string) -> Option<PackageMeta>

  /** `e` reports the first dependency of `deps`, in list order, whose package.json
      cannot be read under `lib`. */
  predicate FirstUnreadable(deps: seq<string>, lib: string, read: PackageReader, e: Error) {
    exists i :: 0 <= i < |deps| && read(deps[i], lib).None?
                && e == PackageJsonUnreadable(deps[i], lib)
                && forall j :: 0 <= j < i ==> read(deps[j], lib).Some?
  }

  /** The loop shared by the three helpers: read each dependency in order and record
      `field` of its package.json under its identifier; the first unreadable one
      rejects the whole call. */
  function FieldMap<V>(deps: seq<string>, lib: string, read: PackageReader, field: PackageMeta -> V)
    : (r: Result<map<string, V>>)
    ensures r.Ok? <==> forall d :: d in deps ==> read(d, lib).Some?
    ensures r.Ok? ==> r.value.Keys == set d | d in deps
    ensures r.Ok? ==> forall d :: d in deps ==> r.value[d] == field(read(d, lib).value)
    ensures r.Err? ==> FirstUnreadable(deps, lib, read, r.error)
    decreases |deps|
  {
    if deps == [] then Ok(map[])
    else
      var init, d := deps[..|deps| - 1], deps[|deps| - 1];
      assert deps == init + [d];
      var m :- FieldMap(init, lib, read, field);
      match read(d, lib)
      case None => Err(PackageJsonUnreadable(d, lib))
      case Some(pkg) => Ok(m[d := field(pkg)])
  }

  /** Reading only depends on the reader's answers for the listed dependencies. */
  lemma {:induction false} FieldMapLocal<V>(deps: seq<string>, lib: string, read1: PackageReader,
                                            read2: PackageReader, field: PackageMeta -> V)
    requires forall d :: d in deps ==> read1(d, lib) == read2(d, lib)
    ensures FieldMap(deps, lib, read1, field) == FieldMap(deps, lib, read2, field)
    decreases |deps|
  {
    if deps != [] {
      var init := deps[..|deps| - 1];
      assert forall d :: d in init ==> d in deps;
      FieldMapLocal(init, lib, read1, read2, field);
    }
  }

  function DescriptionOf(m: PackageMeta): Option<string> { m.description }
  function VersionOf(m: PackageMeta): string { m.version }
  function NameOf(m: PackageMeta): string { m.name }

  /** `getDependenciesDescriptions(dependencies, lib)` */
  function Descriptions(deps: seq<string>, lib: string, read: PackageReader): (r: Result<map<string, Option<string>>>)
    ensures r.Ok? <==> forall d :: d in deps ==> read(d, lib).Some?
    ensures r.Ok? ==> r.value.Keys == set d | d in deps
    ensures r.Ok? ==> forall d :: d in deps ==> r.value[d] == read(d, lib).value.description
    ensures r.Err? ==> exists d :: d in deps && read(d, lib).None? && r.error == PackageJsonUnreadable(d, lib)
    ensures r.Err? ==> FirstUnreadable(deps, lib, read, r.error)
  {
    FieldMap(deps, lib, read, DescriptionOf)
  }

  /** `getDependenciesVersions(dependencies, lib)` */
  function Versions(deps: seq<string>, lib: string, read: PackageReader): (r: Result<map<string, string>>)
    ensures r.Ok? <==> forall d :: d in deps ==> read(d, lib).Some?
    ensures r.Ok? ==> r.value.Keys == set d | d in deps
    ensures r.Ok? ==> forall d :: d in deps ==> r.value[d] == read(d, lib).value.version
    ensures r.Err? ==> exists d :: d in deps && read(d, lib).None? && r.error == PackageJsonUnreadable(d, lib)
    ensures r.Err? ==> FirstUnreadable(deps, lib, read, r.error)
  {
    FieldMap(deps, lib, read, VersionOf)
  }

  /** `getDependenciesNames(dependencies, lib)` */
  function Names(deps: seq<string>, lib: string, read: PackageReader): (r: Result<map<string, string>>)
    ensures r.Ok? <==> forall d :: d in deps ==> read(d, lib).Some?
    ensures r.Ok? ==> r.value.Keys == set d | d in deps
    ensures r.Ok? ==> forall d :: d in deps ==> r.value[d] == read(d, lib).value.name
    ensures r.Err? ==> exists d :: d in deps && read(d, lib).None? && r.error == PackageJsonUnreadable(d, lib)
    ensures r.Err? ==> FirstUnreadable(deps, lib, read, r.error)
  {
    FieldMap(deps, lib, read, NameOf)
  }
}
