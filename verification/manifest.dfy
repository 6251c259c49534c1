/** Reading one application's manifest: `getDependencies` merges the runtime and
    development dependency objects and splits the identifiers by the internal
    `@minus5` namespace prefix. */
module Manifest {
  import opened Seqs
  import opened Results
  import opened Js

  /** The two fields of a parsed package.json this pipeline looks at; `None` when
      the field is absent (spreading `undefined` contributes no keys). */
  datatype PackageJson = PackageJson(
    dependencies: Option<Object<string>>,
    devDependencies: Option<Object<string>>)

  /** What `getDependencies` returns. */
  datatype DependencyLists = DependencyLists(
    minus5Dependencies: seq<string>,
    otherDependencies: seq<string>,
    allDependencies: Object<string>)

  const Minus5Prefix: string := "@minus5"

  /** `s.startsWith(prefix)` */
  predicate StartsWith(s: string, prefix: string)
    ensures StartsWith(s, prefix) <==> |prefix| <= |s| && forall i :: 0 <= i < |prefix| ==> s[i] == prefix[i]
  {
    |prefix| <= |s| && s[..|prefix|] == prefix
  }

  /** `s` starts with `prefix` exactly when `s` is `prefix` followed by something. */
  lemma StartsWithAppend(s: string, prefix: string)
    ensures StartsWith(s, prefix) <==> exists t :: s == prefix + t
  {
    if StartsWith(s, prefix) {
      assert s == prefix + s[|prefix|..];
    }
  }

  /** An identifier in the internal namespace; such dependencies are never reported. */
  predicate IsMinus5(d: string) {
    StartsWith(d, Minus5Prefix)
  }

  predicate IsOther(d: string) {
    !IsMinus5(d)
  }

  /** The object a possibly absent field spreads as. */
  function OrEmpty(o: Option<Object<string>>): (r: Object<string>)
    ensures o.Some? ==> r == o.value
    ensures o.None? ==> r.keys == [] && r.vals == map[]
  {
    match o
    case None => Empty()
    case Some(obj) => obj
  }

  function GetDependencies(pkg: PackageJson): (r: DependencyLists)
    // allDependencies = { ...dependencies, ...devDependencies }
    ensures var deps, dev := OrEmpty(pkg.dependencies), OrEmpty(pkg.devDependencies);
      && (forall k :: k in r.allDependencies.vals <==> k in deps.vals || k in dev.vals)
      && (forall k :: k in dev.vals ==> r.allDependencies.vals[k] == dev.vals[k])
      && (forall k :: k in deps.vals && k !in dev.vals ==> r.allDependencies.vals[k] == deps.vals[k])
      && r.allDependencies.keys == deps.keys + Unseen(dev.keys, deps.keys)
    // the two filters partition Object.keys(allDependencies)
    ensures forall k :: k in r.minus5Dependencies <==> k in r.allDependencies.keys && IsMinus5(k)
    ensures forall k :: k in r.otherDependencies <==> k in r.allDependencies.keys && !IsMinus5(k)
    ensures |r.minus5Dependencies| + |r.otherDependencies| == |r.allDependencies.keys|
    ensures NoDup(r.minus5Dependencies) && NoDup(r.otherDependencies)
  {
    var all := Spread(OrEmpty(pkg.dependencies), OrEmpty(pkg.devDependencies));
    Partition(all.keys);
    DependencyLists(Filter(all.keys, IsMinus5), Filter(all.keys, IsOther), all)
  }

  /** A manifest without `dependencies` merges to a copy of its `devDependencies`. */
  lemma AbsentDependencies(pkg: PackageJson)
    requires pkg.dependencies.None?
    ensures GetDependencies(pkg).allDependencies == OrEmpty(pkg.devDependencies)
  {
    var dev := OrEmpty(pkg.devDependencies);
    assert CopyProperties(Empty<string>(), [], map[]) == Empty();
    CopyAll(dev);
    assert Spread(Empty(), dev) == CopyProperties(Empty(), dev.keys, dev.vals);
  }

  /** A manifest without `devDependencies` merges to a copy of its `dependencies`. */
  lemma AbsentDevDependencies(pkg: PackageJson)
    requires pkg.devDependencies.None?
    ensures GetDependencies(pkg).allDependencies == OrEmpty(pkg.dependencies)
  {
    var deps := OrEmpty(pkg.dependencies);
    var r := GetDependencies(pkg).allDependencies;
    assert r.keys == deps.keys + [];
    SameMap(r.vals, deps.vals);
  }

  /** The two filters of `getDependencies` applied to a duplicate-free key list. */
  lemma Partition(names: seq<string>)
    requires NoDup(names)
    ensures forall k :: k in Filter(names, IsMinus5) <==> k in names && IsMinus5(k)
    ensures forall k :: k in Filter(names, IsOther) <==> k in names && !IsMinus5(k)
    ensures |Filter(names, IsMinus5)| + |Filter(names, IsOther)| == |names|
    ensures NoDup(Filter(names, IsMinus5)) && NoDup(Filter(names, IsOther))
  {
    PartitionSize(names);
    FilterNoDup(names, IsMinus5);
    FilterNoDup(names, IsOther);
  }

  /** Splitting by a predicate and by its negation loses and duplicates nothing. */
  lemma {:induction false} PartitionSize(s: seq<string>)
    ensures |Filter(s, IsMinus5)| + |Filter(s, IsOther)| == |s|
    decreases |s|
  {
    if s != [] {
      PartitionSize(s[..|s| - 1]);
    }
  }

  /** Both lists keep the order of `Object.keys(allDependencies)`. */
  lemma PartitionKeepsOrder(pkg: PackageJson, x: string, y: string)
    ensures var r := GetDependencies(pkg);
      && (x in r.minus5Dependencies && y in r.minus5Dependencies ==>
            (Before(r.minus5Dependencies, x, y) <==> Before(r.allDependencies.keys, x, y)))
      && (x in r.otherDependencies && y in r.otherDependencies ==>
            (Before(r.otherDependencies, x, y) <==> Before(r.allDependencies.keys, x, y)))
  {
    var r := GetDependencies(pkg);
    var names := r.allDependencies.keys;
    if x in r.minus5Dependencies && y in r.minus5Dependencies {
      FilterKeepsOrder(names, IsMinus5, x, y);
    }
    if x in r.otherDependencies && y in r.otherDependencies {
      FilterKeepsOrder(names, IsOther, x, y);
    }
  }

  /** The identifiers the aggregation considers for one application. */
  function OtherDependencies(pkg: PackageJson): (r: seq<string>)
    ensures NoDup(r)
  {
    GetDependencies(pkg).otherDependencies
  }

  /** No identifier of the internal namespace is ever considered. */
  lemma OtherDependenciesAreOther(pkg: PackageJson)
    ensures forall d :: d in OtherDependencies(pkg) ==> !IsMinus5(d)
  {
  }
}
