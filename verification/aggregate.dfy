/** The accumulation loop of `generateHtml`: applications are visited in order, each
    contributes the "other" dependencies not seen before, and their metadata is
    merged into three identifier-keyed maps; the report is one row per identifier. */
module Aggregate {
  import opened Seqs
  import opened Results
  import opened Manifest
  import opened Metadata

  /** `readFile(path)` followed by `JSON.parse`; `None` when the file is missing or not JSON. */
  type ManifestReader = string -> Option<PackageJson>

  /** The four accumulators of the loop. */
  datatype Report = Report(
    dependencies: seq<string>,
    descriptions: map<string, Option<string>>,
    versions: map<string, string>,
    names: map<string, string>)

  /** The accumulators before the first application. */
  function Start(): Report {
    Report([], map[], map[], map[])
  }

  /** The invariant the loop keeps: the sequence has no duplicate, and each of the
      three maps has exactly the identifiers of the sequence as keys. */
  predicate Consistent(rep: Report) {
    && NoDup(rep.dependencies)
    && rep.names.Keys == (set d | d in rep.dependencies)
    && rep.versions.Keys == (set d | d in rep.dependencies)
    && rep.descriptions.Keys == (set d | d in rep.dependencies)
  }

  /** `package + "/package.json"` */
  function ManifestPath(app: string): (r: string)
    ensures |r| == |app| + |"/package.json"|
    ensures r[..|app|] == app && r[|app|..] == "/package.json"
  {
    app + "/package.json"
  }

  /** Distinct applications have distinct manifest paths, so a manifest error names
      the application that failed. */
  lemma ManifestPathInjective(a: string, b: string)
    ensures ManifestPath(a) == ManifestPath(b) <==> a == b
  {
    if ManifestPath(a) == ManifestPath(b) {
      assert |a| == |b|;
      assert a == ManifestPath(a)[..|a|] == ManifestPath(b)[..|b|] == b;
    }
  }

  /** The application's manifest can be read and parsed. */
  predicate Readable(manifests: ManifestReader, app: string) {
    manifests(ManifestPath(app)).Some?
  }

  /** The identifiers an application contributes: its other dependencies not yet in
      the accumulated sequence, in manifest key order. */
  function Fresh(s: Report, pkg: PackageJson): (r: seq<string>)
    ensures NoDup(r)
    ensures forall d :: d in r <==> d in OtherDependencies(pkg) && d !in s.dependencies
  {
    UnseenNoDup(OtherDependencies(pkg), s.dependencies);
    Unseen(OtherDependencies(pkg), s.dependencies)
  }

  /** `r` is `s` with the identifiers `added` of application `app` appended, and the
      metadata found for them under `app` merged into the three maps; the metadata of
      identifiers already present is untouched. */
  predicate Absorbs(s: Report, r: Report, added: seq<string>, app: string, packages: PackageReader) {
    && r.dependencies == s.dependencies + added
    && r.names.Keys == s.names.Keys + (set d | d in added)
    && r.versions.Keys == s.versions.Keys + (set d | d in added)
    && r.descriptions.Keys == s.descriptions.Keys + (set d | d in added)
    && (forall d :: d in added ==>
          && d in r.names && d in r.versions && d in r.descriptions
          && packages(d, app) == Some(PackageMeta(r.names[d], r.versions[d], r.descriptions[d])))
    && (forall d :: d in s.names && d !in added ==> d in r.names && r.names[d] == s.names[d])
    && (forall d :: d in s.versions && d !in added ==> d in r.versions && r.versions[d] == s.versions[d])
    && (forall d :: d in s.descriptions && d !in added ==> d in r.descriptions && r.descriptions[d] == s.descriptions[d])
  }

  /** One iteration of the loop for application root `app`. */
  function Step(s: Report, app: string, manifests: ManifestReader, packages: PackageReader): (r: Result<Report>)
    ensures manifests(ManifestPath(app)).None? ==> r == Err(ManifestUnreadable(ManifestPath(app)))
    // an application with nothing new is skipped: the accumulators are returned as they were,
    // whatever the package reader would answer
    ensures manifests(ManifestPath(app)).Some? && Fresh(s, manifests(ManifestPath(app)).value) == [] ==>
              r == Ok(s)
    ensures manifests(ManifestPath(app)).Some? ==>
              (var added := Fresh(s, manifests(ManifestPath(app)).value);
               && (r.Ok? <==> forall d :: d in added ==> packages(d, app).Some?)
               && (r.Err? ==> exists d :: d in added && packages(d, app).None?
                                          && r.error == PackageJsonUnreadable(d, app))
               && (r.Err? ==> FirstUnreadable(added, app, packages, r.error)))
    ensures r.Ok? ==> Absorbs(s, r.value, Fresh(s, manifests(ManifestPath(app)).value), app, packages)
    ensures Consistent(s) && r.Ok? ==> Consistent(r.value)
  {
    match manifests(ManifestPath(app))
    case None => Err(ManifestUnreadable(ManifestPath(app)))
    case Some(pkg) =>
      var added := Fresh(s, pkg);
      if |added| == 0 then
        AbsorbsNothing(s, app, packages);
        Ok(s)
      else
        Collect(s, added, app, packages)
  }

  lemma AbsorbsNothing(s: Report, app: string, packages: PackageReader)
    ensures Absorbs(s, s, [], app, packages)
  {
    assert s.dependencies + [] == s.dependencies;
    assert (set d: string | d in []) == {};
  }

  /** The three helper calls for the identifiers `added` of application `app`, and the
      merge of their results into the accumulators. */
  function Collect(s: Report, added: seq<string>, app: string, packages: PackageReader): (r: Result<Report>)
    requires NoDup(added) && forall d :: d in added ==> d !in s.dependencies
    ensures r.Ok? <==> forall d :: d in added ==> packages(d, app).Some?
    ensures r.Err? ==> exists d :: d in added && packages(d, app).None?
                                   && r.error == PackageJsonUnreadable(d, app)
    // the loop rejects with the first unreadable identifier in list order
    ensures r.Err? ==> FirstUnreadable(added, app, packages, r.error)
    ensures r.Ok? ==> Absorbs(s, r.value, added, app, packages)
    ensures r.Ok? && Consistent(s) ==> Consistent(r.value)
  {
    match (Descriptions(added, app, packages), Versions(added, app, packages), Names(added, app, packages))
    case (Err(e), _, _) => Err(e)
    case (_, Err(e), _) => Err(e)
    case (_, _, Err(e)) => Err(e)
    case (Ok(ds), Ok(vs), Ok(ns)) =>
      Merged(s, added, app, packages, ds, vs, ns);
      Ok(Merge(s, added, ds, vs, ns))
  }

  /** The helpers consult the package reader only for the identifiers they are given. */
  lemma CollectLocal(s: Report, added: seq<string>, app: string, packages1: PackageReader, packages2: PackageReader)
    requires NoDup(added) && forall d :: d in added ==> d !in s.dependencies
    requires forall d :: d in added ==> packages1(d, app) == packages2(d, app)
    ensures Collect(s, added, app, packages1) == Collect(s, added, app, packages2)
  {
    FieldMapLocal(added, app, packages1, packages2, DescriptionOf);
    FieldMapLocal(added, app, packages1, packages2, VersionOf);
    FieldMapLocal(added, app, packages1, packages2, NameOf);
  }

  /** `dependencies = [...dependencies, ...added]` and `m = { ...m, ...fromThisApp }` for the three maps. */
  function Merge(s: Report, added: seq<string>, ds: map<string, Option<string>>,
                 vs: map<string, string>, ns: map<string, string>): (r: Report)
    ensures |r.dependencies| == |s.dependencies| + |added|
    ensures r.dependencies[..|s.dependencies|] == s.dependencies && r.dependencies[|s.dependencies|..] == added
    // each object spread: the later object's value wins, every other entry is kept
    ensures forall d :: d in r.descriptions <==> d in s.descriptions || d in ds
    ensures forall d :: d in ds ==> r.descriptions[d] == ds[d]
    ensures forall d :: d in s.descriptions && d !in ds ==> r.descriptions[d] == s.descriptions[d]
    ensures forall d :: d in r.versions <==> d in s.versions || d in vs
    ensures forall d :: d in vs ==> r.versions[d] == vs[d]
    ensures forall d :: d in s.versions && d !in vs ==> r.versions[d] == s.versions[d]
    ensures forall d :: d in r.names <==> d in s.names || d in ns
    ensures forall d :: d in ns ==> r.names[d] == ns[d]
    ensures forall d :: d in s.names && d !in ns ==> r.names[d] == s.names[d]
  {
    Report(s.dependencies + added, s.descriptions + ds, s.versions + vs, s.names + ns)
  }

  lemma Merged(s: Report, added: seq<string>, app: string, packages: PackageReader,
               ds: map<string, Option<string>>, vs: map<string, string>, ns: map<string, string>)
    requires NoDup(added) && forall d :: d in added ==> d !in s.dependencies
    requires Descriptions(added, app, packages) == Ok(ds)
    requires Versions(added, app, packages) == Ok(vs)
    requires Names(added, app, packages) == Ok(ns)
    ensures Absorbs(s, Merge(s, added, ds, vs, ns), added, app, packages)
    ensures Consistent(s) ==> Consistent(Merge(s, added, ds, vs, ns))
  {
    var r := Merge(s, added, ds, vs, ns);
    MergedKeys(s, added, ds, vs, ns);
    forall d | d in added
      ensures && d in r.names && d in r.versions && d in r.descriptions
              && packages(d, app) == Some(PackageMeta(r.names[d], r.versions[d], r.descriptions[d]))
    {
      assert r.names[d] == ns[d] && r.versions[d] == vs[d] && r.descriptions[d] == ds[d];
    }
    if Consistent(s) {
      MergedConsistent(s, added, ds, vs, ns);
    }
  }

  /** The merged maps cover the old keys and the new identifiers; old entries the new
      identifiers do not override are kept. */
  lemma MergedKeys(s: Report, added: seq<string>, ds: map<string, Option<string>>,
                   vs: map<string, string>, ns: map<string, string>)
    requires ds.Keys == vs.Keys == ns.Keys == set d | d in added
    ensures var r := Merge(s, added, ds, vs, ns);
            && r.dependencies == s.dependencies + added
            && r.names.Keys == s.names.Keys + (set d | d in added)
            && r.versions.Keys == s.versions.Keys + (set d | d in added)
            && r.descriptions.Keys == s.descriptions.Keys + (set d | d in added)
            && (forall d :: d in s.names && d !in added ==> d in r.names && r.names[d] == s.names[d])
            && (forall d :: d in s.versions && d !in added ==> d in r.versions && r.versions[d] == s.versions[d])
            && (forall d :: d in s.descriptions && d !in added ==> d in r.descriptions && r.descriptions[d] == s.descriptions[d])
  {
  }

  lemma MergedConsistent(s: Report, added: seq<string>, ds: map<string, Option<string>>,
                         vs: map<string, string>, ns: map<string, string>)
    requires Consistent(s) && NoDup(added) && forall d :: d in added ==> d !in s.dependencies
    requires ds.Keys == vs.Keys == ns.Keys == set d | d in added
    ensures Consistent(Merge(s, added, ds, vs, ns))
  {
    var r := Merge(s, added, ds, vs, ns);
    assert r.dependencies == s.dependencies + added;
    NoDupConcat(s.dependencies, added);
    var old_ids, new_ids := set d | d in s.dependencies, set d | d in added;
    assert (set d | d in r.dependencies) == old_ids + new_ids;
    assert r.names.Keys == s.names.Keys + ns.Keys;
    assert r.versions.Keys == s.versions.Keys + vs.Keys;
    assert r.descriptions.Keys == s.descriptions.Keys + ds.Keys;
  }

  lemma {:induction false} NoDupConcat(a: seq<string>, b: seq<string>)
    requires NoDup(a) && NoDup(b)
    requires forall d :: d in b ==> d !in a
    ensures NoDup(a + b)
    decreases |b|
  {
    if b != [] {
      var init, last := b[..|b| - 1], b[|b| - 1];
      assert b == init + [last];
      NoDupSnoc(init, last);
      assert forall d :: d in init ==> d in b;
      NoDupConcat(a, init);
      assert last in b && last !in init;
      assert a + b == (a + init) + [last];
      NoDupSnoc(a + init, last);
    } else {
      assert a + b == a;
    }
  }

  /** The loop over `apps`, in order; the first unreadable file rejects the whole run. */
  function Run(apps: seq<string>, manifests: ManifestReader, packages: PackageReader): (r: Result<Report>)
    ensures r.Ok? ==> Consistent(r.value)
    decreases |apps|
  {
    if apps == [] then Ok(Start())
    else
      var init, app := apps[..|apps| - 1], apps[|apps| - 1];
      match Run(init, manifests, packages)
      case Err(e) => Err(e)
      case Ok(s) =>
        Step(s, app, manifests, packages)
  }

  /** A successful run read every application's manifest and collected no identifier
      of the internal namespace. */
  lemma {:induction false} RunInvariants(apps: seq<string>, manifests: ManifestReader, packages: PackageReader)
    requires Run(apps, manifests, packages).Ok?
    ensures forall a :: a in apps ==> Readable(manifests, a)
    ensures forall d :: d in Run(apps, manifests, packages).value.dependencies ==> !IsMinus5(d)
    decreases |apps|
  {
    if apps != [] {
      var init, app := apps[..|apps| - 1], apps[|apps| - 1];
      SnocMembers(apps);
      var s := Run(init, manifests, packages).value;
      RunInvariants(init, manifests, packages);
      StepKeepsInvariants(s, app, manifests, packages);
    }
  }

  lemma SnocMembers(apps: seq<string>)
    requires apps != []
    ensures forall a :: a in apps <==> a in apps[..|apps| - 1] || a == apps[|apps| - 1]
  {
    assert apps == apps[..|apps| - 1] + [apps[|apps| - 1]];
  }

  lemma StepKeepsInvariants(s: Report, app: string, manifests: ManifestReader, packages: PackageReader)
    requires Consistent(s) && forall d :: d in s.dependencies ==> !IsMinus5(d)
    ensures var r := Step(s, app, manifests, packages);
            r.Ok? ==> && Readable(manifests, app)
                      && Consistent(r.value)
                      && forall d :: d in r.value.dependencies ==> !IsMinus5(d)
  {
    var r := Step(s, app, manifests, packages);
    if r.Ok? {
      var added := Fresh(s, manifests(ManifestPath(app)).value);
      assert r.value.dependencies == s.dependencies + added;
      OtherDependenciesAreOther(manifests(ManifestPath(app)).value);
    }
  }

  /** One rendered table row: `names[d]`, `versions[d]` and `descriptions[d]`, each
      `None` where the lookup yields `undefined`. */
  datatype Row = Row(name: Option<string>, version: Option<string>, description: Option<string>)

  function Get<V>(m: map<string, V>, k: string): Option<V> {
    if k in m then Some(m[k]) else None
  }

  function RowOf(rep: Report, d: string): Row {
    Row(Get(rep.names, d), Get(rep.versions, d), if d in rep.descriptions then rep.descriptions[d] else None)
  }

  /** `dependencies.map(...)`: one row per identifier, in sequence order. */
  function RowsOf(rep: Report, ds: seq<string>): (rows: seq<Row>)
    ensures |rows| == |ds|
    ensures forall i :: 0 <= i < |ds| ==> rows[i] == RowOf(rep, ds[i])
    decreases |ds|
  {
    if ds == [] then [] else RowsOf(rep, ds[..|ds| - 1]) + [RowOf(rep, ds[|ds| - 1])]
  }

  function Rows(rep: Report): (rows: seq<Row>)
    ensures |rows| == |rep.dependencies|
  {
    RowsOf(rep, rep.dependencies)
  }
}
