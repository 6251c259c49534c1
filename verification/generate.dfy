/** `generateHtml(...packages)`: the accumulation loop written as the program writes it,
    with mutable accumulators, and the rows of the table it renders. */
module Generate {
  import opened Seqs
  import opened Results
  import opened Manifest
  import opened Metadata
  import opened Aggregate
  import opened History

  /** The loop over the applications, then one row per accumulated identifier. A
      rejected read ends the loop with that error. */
  method GenerateHtml(apps: seq<string>, manifests: ManifestReader, packages: PackageReader)
    returns (r: Result<seq<Row>>)
    ensures Run(apps, manifests, packages).Ok? ==> r == Ok(Rows(Run(apps, manifests, packages).value))
    ensures Run(apps, manifests, packages).Err? ==> r == Err(Run(apps, manifests, packages).error)
  {
    var acc := Accumulate(apps, manifests, packages);
    if acc.Err? {
      return Err(acc.error);
    }
    r := Ok(Rows(acc.value));
  }

  /** The `for (const app of apps)` loop with its four accumulators. */
  method Accumulate(apps: seq<string>, manifests: ManifestReader, packages: PackageReader)
    returns (r: Result<Report>)
    ensures r == Run(apps, manifests, packages)
  {
    var acc := Start();
    var i := 0;
    while i < |apps|
      invariant 0 <= i <= |apps|
      invariant Run(apps[..i], manifests, packages) == Ok(acc)
    {
      var next := Visit(apps, i, manifests, packages, acc);
      if next.Err? {
        return next;
      }
      acc := next.value;
      i := i + 1;
    }
    assert apps[..i] == apps;
    r := Ok(acc);
  }

  /** One pass of the loop body for application `apps[i]`, updating copies of the four
      accumulators in the order the program assigns them; a rejected read here rejects
      the whole loop. */
  method Visit(apps: seq<string>, i: int, manifests: ManifestReader, packages: PackageReader, s: Report)
    returns (r: Result<Report>)
    requires 0 <= i < |apps| && Run(apps[..i], manifests, packages) == Ok(s)
    ensures r == Run(apps[..i + 1], manifests, packages)
    ensures r.Err? ==> r == Run(apps, manifests, packages)
  {
    RunExtend(apps, i, manifests, packages, s);
    var app := apps[i];
    var dependencies, descriptions, versions, names := s.dependencies, s.descriptions, s.versions, s.names;
    var manifest := manifests(ManifestPath(app));
    if manifest.None? {
      return Err(ManifestUnreadable(ManifestPath(app)));
    }
    var otherDependencies := GetDependencies(manifest.value).otherDependencies;
    otherDependencies := Unseen(otherDependencies, dependencies);
    if |otherDependencies| == 0 {
      return Ok(s);
    }
    dependencies := dependencies + otherDependencies;
    var ds := Descriptions(otherDependencies, app, packages);
    if ds.Err? {
      return Err(ds.error);
    }
    descriptions := descriptions + ds.value;
    // the reads that gave the descriptions answer the same for the other two fields
    var vs := Versions(otherDependencies, app, packages);
    versions := versions + vs.value;
    var ns := Names(otherDependencies, app, packages);
    names := names + ns.value;
    r := Ok(Report(dependencies, descriptions, versions, names));
  }

  /** The run over one more application of `apps`. */
  lemma RunPrefix(apps: seq<string>, i: int, manifests: ManifestReader, packages: PackageReader)
    requires 0 <= i < |apps|
    ensures Run(apps[..i + 1], manifests, packages) ==
              match Run(apps[..i], manifests, packages)
              case Err(e) => Err(e)
              case Ok(s) => Step(s, apps[i], manifests, packages)
  {
    var q := apps[..i + 1];
    assert q[..|q| - 1] == apps[..i] && q[|q| - 1] == apps[i];
  }

  /** The run over one more application of `apps`; a failure there is the failure
      of the whole run. */
  lemma RunExtend(apps: seq<string>, i: int, manifests: ManifestReader, packages: PackageReader, acc: Report)
    requires 0 <= i < |apps| && Run(apps[..i], manifests, packages) == Ok(acc)
    ensures Run(apps[..i + 1], manifests, packages) == Step(acc, apps[i], manifests, packages)
    ensures Step(acc, apps[i], manifests, packages).Err? ==>
              Run(apps, manifests, packages) == Step(acc, apps[i], manifests, packages)
  {
    RunPrefix(apps, i, manifests, packages);
    if Run(apps[..i + 1], manifests, packages).Err? {
      SplitAt(apps, i + 1);
      RunAppendAfterError(apps[..i + 1], apps[i + 1..], manifests, packages);
    }
  }

  /** Cutting the application list at `k` and joining the halves gives it back. Kept
      apart from RunExtend so that the sequence extensionality is proved without the
      run's definitions in scope. */
  lemma SplitAt(apps: seq<string>, k: int)
    requires 0 <= k <= |apps|
    ensures apps[..k] + apps[k..] == apps
  {
  }
}
