/** All-input facts about the whole loop, stated against an independent description of
    what it accumulates: the "other" identifiers the applications declare, concatenated
    in application order, with every identifier kept at its first occurrence and its
    metadata taken from the first application that declares it. */
module History {
  import opened Seqs
  import opened Results
  import opened Manifest
  import opened Metadata
  import opened Aggregate

  /** The "other" identifiers of application `app`, in manifest order; none when its
      manifest cannot be read. */
  function DeclaredBy(manifests: ManifestReader, app: string): seq<string> {
    match manifests(ManifestPath(app))
    case None => []
    case Some(pkg) => OtherDependencies(pkg)
  }

  /** `DeclaredBy` as a function of the application alone. */
  function DeclaredByOf(manifests: ManifestReader): string -> seq<string> {
    app => DeclaredBy(manifests, app)
  }

  /** The declared lists of all applications, concatenated in application order. */
  function Declared(apps: seq<string>, manifests: ManifestReader): seq<string> {
    FlatMap(apps, DeclaredByOf(manifests))
  }

  /** The first application in `apps` that declares `d`. */
  function Declarer(apps: seq<string>, manifests: ManifestReader, d: string): (app: string)
    requires d in Declared(apps, manifests)
    ensures app in apps
  {
    FirstWith(apps, DeclaredByOf(manifests), d)
  }

  /** Extending the application list keeps the declarer of what was already declared. */
  lemma DeclarerSnoc(apps: seq<string>, manifests: ManifestReader, d: string)
    requires apps != []
    ensures Declared(apps, manifests) == Declared(apps[..|apps| - 1], manifests) + DeclaredBy(manifests, apps[|apps| - 1])
    ensures d in Declared(apps[..|apps| - 1], manifests) ==>
              Declarer(apps, manifests, d) == Declarer(apps[..|apps| - 1], manifests, d)
    ensures d !in Declared(apps[..|apps| - 1], manifests) && d in DeclaredBy(manifests, apps[|apps| - 1]) ==>
              Declarer(apps, manifests, d) == apps[|apps| - 1]
  {
  }

  /** `rep` is what the loop should have accumulated after `apps`: every declared
      identifier once, at its first occurrence in the concatenation of the applications'
      lists, carrying the name, version and description read under the first application
      that declares it. */
  predicate Explains(rep: Report, apps: seq<string>, manifests: ManifestReader, packages: PackageReader) {
    && Consistent(rep)
    && rep.dependencies == Dedup(Declared(apps, manifests))
    && forall d :: d in rep.dependencies ==>
         packages(d, Declarer(apps, manifests, d))
           == Some(PackageMeta(rep.names[d], rep.versions[d], rep.descriptions[d]))
  }

  /** One more iteration extends the explanation by one more application. */
  lemma StepExplains(apps: seq<string>, manifests: ManifestReader, packages: PackageReader, s: Report, r: Report)
    requires apps != []
    requires Explains(s, apps[..|apps| - 1], manifests, packages)
    requires Step(s, apps[|apps| - 1], manifests, packages) == Ok(r)
    ensures Explains(r, apps, manifests, packages)
  {
    StepDependencies(apps, manifests, packages, s, r);
    forall d | d in r.dependencies
      ensures packages(d, Declarer(apps, manifests, d))
                == Some(PackageMeta(r.names[d], r.versions[d], r.descriptions[d]))
    {
      StepMetadata(apps, manifests, packages, s, r, d);
    }
  }

  lemma StepDependencies(apps: seq<string>, manifests: ManifestReader, packages: PackageReader, s: Report, r: Report)
    requires apps != []
    requires Explains(s, apps[..|apps| - 1], manifests, packages)
    requires Step(s, apps[|apps| - 1], manifests, packages) == Ok(r)
    ensures Consistent(r) && r.dependencies == Dedup(Declared(apps, manifests))
  {
    var init, app := apps[..|apps| - 1], apps[|apps| - 1];
    var others := DeclaredBy(manifests, app);
    assert r.dependencies == s.dependencies + Unseen(others, s.dependencies);
    DedupAppend(Declared(init, manifests), others);
    UnseenSameSeen(others, Declared(init, manifests), s.dependencies);
  }

  lemma StepMetadata(apps: seq<string>, manifests: ManifestReader, packages: PackageReader, s: Report, r: Report, d: string)
    requires apps != []
    requires Explains(s, apps[..|apps| - 1], manifests, packages)
    requires Step(s, apps[|apps| - 1], manifests, packages) == Ok(r)
    requires d in r.dependencies
    ensures d in Declared(apps, manifests) && Consistent(r)
    ensures packages(d, Declarer(apps, manifests, d))
              == Some(PackageMeta(r.names[d], r.versions[d], r.descriptions[d]))
  {
    var init, app := apps[..|apps| - 1], apps[|apps| - 1];
    StepDependencies(apps, manifests, packages, s, r);
    DeclarerSnoc(apps, manifests, d);
    if d in s.dependencies {
      assert d in Declared(init, manifests);
      assert r.names[d] == s.names[d] && r.versions[d] == s.versions[d] && r.descriptions[d] == s.descriptions[d];
    } else {
      assert d in Fresh(s, manifests(ManifestPath(app)).value);
      assert d !in Declared(init, manifests) && d in DeclaredBy(manifests, app);
    }
  }

  /** What a successful run accumulates is explained by the applications' declarations. */
  lemma {:induction false} RunReport(apps: seq<string>, manifests: ManifestReader, packages: PackageReader)
    requires Run(apps, manifests, packages).Ok?
    ensures Explains(Run(apps, manifests, packages).value, apps, manifests, packages)
    decreases |apps|
  {
    if apps != [] {
      var init := apps[..|apps| - 1];
      RunReport(init, manifests, packages);
      StepExplains(apps, manifests, packages, Run(init, manifests, packages).value, Run(apps, manifests, packages).value);
    }
  }

  /** The report lists identifiers in the order of their first declaration. */
  lemma RunOrder(apps: seq<string>, manifests: ManifestReader, packages: PackageReader, x: string, y: string)
    requires Run(apps, manifests, packages).Ok?
    ensures var deps := Run(apps, manifests, packages).value.dependencies;
            x in deps && y in deps ==> (Before(deps, x, y) <==> Before(Declared(apps, manifests), x, y))
  {
    RunReport(apps, manifests, packages);
    var deps := Run(apps, manifests, packages).value.dependencies;
    if x in deps && y in deps {
      DedupKeepsOrder(Declared(apps, manifests), x, y);
    }
  }

  /** Every application's manifest can be read. */
  predicate AllReadable(apps: seq<string>, manifests: ManifestReader) {
    forall a :: a in apps ==> Readable(manifests, a)
  }

  /** Every declared identifier's package.json can be read under its first declarer. */
  predicate AllResolved(apps: seq<string>, manifests: ManifestReader, packages: PackageReader) {
    forall d :: d in Declared(apps, manifests) ==> packages(d, Declarer(apps, manifests, d)).Some?
  }

  /** What application `app` declares that `init` did not can be read under `app`. */
  predicate NewResolved(init: seq<string>, app: string, manifests: ManifestReader, packages: PackageReader) {
    forall d :: d in DeclaredBy(manifests, app) && d !in Declared(init, manifests) ==> packages(d, app).Some?
  }

  /** Every file a run needs can be read. */
  predicate Resolvable(apps: seq<string>, manifests: ManifestReader, packages: PackageReader) {
    AllReadable(apps, manifests) && AllResolved(apps, manifests, packages)
  }

  lemma ReadableSnoc(apps: seq<string>, manifests: ManifestReader)
    requires apps != []
    ensures AllReadable(apps, manifests) <==>
            AllReadable(apps[..|apps| - 1], manifests) && Readable(manifests, apps[|apps| - 1])
  {
    SnocMembers(apps);
  }

  lemma ResolvedSnoc(apps: seq<string>, manifests: ManifestReader, packages: PackageReader)
    requires apps != []
    ensures var init, app := apps[..|apps| - 1], apps[|apps| - 1];
            AllResolved(apps, manifests, packages) <==>
              AllResolved(init, manifests, packages) && NewResolved(init, app, manifests, packages)
  {
    if AllResolved(apps, manifests, packages) {
      ResolvedShrink(apps, manifests, packages);
    } else {
      var d :| d in Declared(apps, manifests) && packages(d, Declarer(apps, manifests, d)).None?;
      DeclarerSnoc(apps, manifests, d);
    }
  }

  lemma ResolvedShrink(apps: seq<string>, manifests: ManifestReader, packages: PackageReader)
    requires apps != []
    requires AllResolved(apps, manifests, packages)
    ensures var init, app := apps[..|apps| - 1], apps[|apps| - 1];
            AllResolved(init, manifests, packages) && NewResolved(init, app, manifests, packages)
  {
    var init, app := apps[..|apps| - 1], apps[|apps| - 1];
    forall d | d in Declared(init, manifests)
      ensures packages(d, Declarer(init, manifests, d)).Some?
    {
      DeclarerSnoc(apps, manifests, d);
    }
    forall d | d in DeclaredBy(manifests, app) && d !in Declared(init, manifests)
      ensures packages(d, app).Some?
    {
      DeclarerSnoc(apps, manifests, d);
    }
  }

  /** One more iteration succeeds exactly when the new application can be read and its
      newly declared identifiers can be resolved under it. */
  lemma StepOkIff(apps: seq<string>, manifests: ManifestReader, packages: PackageReader, s: Report)
    requires apps != []
    requires Explains(s, apps[..|apps| - 1], manifests, packages)
    ensures var init, app := apps[..|apps| - 1], apps[|apps| - 1];
            Step(s, app, manifests, packages).Ok? <==>
              Readable(manifests, app) && NewResolved(init, app, manifests, packages)
  {
  }

  /** A run succeeds exactly when every file it needs can be read. */
  lemma {:induction false} RunOkIff(apps: seq<string>, manifests: ManifestReader, packages: PackageReader)
    ensures Run(apps, manifests, packages).Ok? <==> Resolvable(apps, manifests, packages)
    decreases |apps|
  {
    if apps != [] {
      var init, app := apps[..|apps| - 1], apps[|apps| - 1];
      RunOkIff(init, manifests, packages);
      ReadableSnoc(apps, manifests);
      ResolvedSnoc(apps, manifests, packages);
      if Run(init, manifests, packages).Ok? {
        RunReport(init, manifests, packages);
        StepOkIff(apps, manifests, packages, Run(init, manifests, packages).value);
      }
    }
  }

  /** A failed run names a file that really cannot be read: the manifest of one of the
      applications, or a dependency's package.json under the first application that
      declares the dependency. */
  predicate ExplainsError(e: Error, apps: seq<string>, manifests: ManifestReader, packages: PackageReader) {
    || (exists a :: a in apps && !Readable(manifests, a) && e == ManifestUnreadable(ManifestPath(a)))
    || (exists d :: d in Declared(apps, manifests) && packages(d, Declarer(apps, manifests, d)).None?
                    && e == PackageJsonUnreadable(d, Declarer(apps, manifests, d)))
  }

  lemma ErrorSnoc(apps: seq<string>, manifests: ManifestReader, packages: PackageReader, e: Error)
    requires apps != []
    requires ExplainsError(e, apps[..|apps| - 1], manifests, packages)
    ensures ExplainsError(e, apps, manifests, packages)
  {
    var init := apps[..|apps| - 1];
    SnocMembers(apps);
    if exists d :: d in Declared(init, manifests) && packages(d, Declarer(init, manifests, d)).None?
                   && e == PackageJsonUnreadable(d, Declarer(init, manifests, d)) {
      var d :| d in Declared(init, manifests) && packages(d, Declarer(init, manifests, d)).None?
               && e == PackageJsonUnreadable(d, Declarer(init, manifests, d));
      DeclarerSnoc(apps, manifests, d);
    }
  }

  lemma StepError(apps: seq<string>, manifests: ManifestReader, packages: PackageReader, s: Report)
    requires apps != []
    requires Explains(s, apps[..|apps| - 1], manifests, packages)
    requires Step(s, apps[|apps| - 1], manifests, packages).Err?
    ensures ExplainsError(Step(s, apps[|apps| - 1], manifests, packages).error, apps, manifests, packages)
  {
    var app := apps[|apps| - 1];
    var e := Step(s, app, manifests, packages).error;
    if Readable(manifests, app) {
      var d :| d in Fresh(s, manifests(ManifestPath(app)).value) && packages(d, app).None?
               && e == PackageJsonUnreadable(d, app);
      DeclarerSnoc(apps, manifests, d);
    }
  }

  lemma {:induction false} RunError(apps: seq<string>, manifests: ManifestReader, packages: PackageReader)
    requires Run(apps, manifests, packages).Err?
    ensures ExplainsError(Run(apps, manifests, packages).error, apps, manifests, packages)
    decreases |apps|
  {
    var init := apps[..|apps| - 1];
    if Run(init, manifests, packages).Err? {
      RunError(init, manifests, packages);
      ErrorSnoc(apps, manifests, packages, Run(apps, manifests, packages).error);
    } else {
      RunReport(init, manifests, packages);
      StepError(apps, manifests, packages, Run(init, manifests, packages).value);
    }
  }

  /** Two package readers that agree on every declared identifier under its first
      declarer: the lookups a run makes. */
  predicate AgreeOnLookups(apps: seq<string>, manifests: ManifestReader, packages1: PackageReader, packages2: PackageReader) {
    forall d :: d in Declared(apps, manifests) ==>
      packages1(d, Declarer(apps, manifests, d)) == packages2(d, Declarer(apps, manifests, d))
  }

  /** The two readers agree on what application `app` declares that `init` did not. */
  predicate AgreeOnNew(init: seq<string>, app: string, manifests: ManifestReader,
                       packages1: PackageReader, packages2: PackageReader) {
    forall d :: d in DeclaredBy(manifests, app) && d !in Declared(init, manifests) ==>
      packages1(d, app) == packages2(d, app)
  }

  lemma AgreeSnoc(apps: seq<string>, manifests: ManifestReader, packages1: PackageReader, packages2: PackageReader)
    requires apps != []
    requires AgreeOnLookups(apps, manifests, packages1, packages2)
    ensures AgreeOnLookups(apps[..|apps| - 1], manifests, packages1, packages2)
    ensures AgreeOnNew(apps[..|apps| - 1], apps[|apps| - 1], manifests, packages1, packages2)
  {
    var init, app := apps[..|apps| - 1], apps[|apps| - 1];
    forall d | d in Declared(init, manifests)
      ensures packages1(d, Declarer(init, manifests, d)) == packages2(d, Declarer(init, manifests, d))
    {
      DeclarerSnoc(apps, manifests, d);
    }
    forall d | d in DeclaredBy(manifests, app) && d !in Declared(init, manifests)
      ensures packages1(d, app) == packages2(d, app)
    {
      DeclarerSnoc(apps, manifests, d);
    }
  }

  lemma StepLocal(apps: seq<string>, manifests: ManifestReader, packages1: PackageReader, packages2: PackageReader, s: Report)
    requires apps != []
    requires Explains(s, apps[..|apps| - 1], manifests, packages1)
    requires AgreeOnNew(apps[..|apps| - 1], apps[|apps| - 1], manifests, packages1, packages2)
    ensures Step(s, apps[|apps| - 1], manifests, packages1) == Step(s, apps[|apps| - 1], manifests, packages2)
  {
    var app := apps[|apps| - 1];
    if Readable(manifests, app) {
      var added := Fresh(s, manifests(ManifestPath(app)).value);
      if added != [] {
        CollectLocal(s, added, app, packages1, packages2);
      }
    }
  }

  /** A run consults the package reader only at each declared identifier under its
      first declarer: an application that contributes nothing new triggers no lookup,
      and an identifier is never looked up again under a later application. */
  lemma {:induction false} RunLocal(apps: seq<string>, manifests: ManifestReader, packages1: PackageReader, packages2: PackageReader)
    requires AgreeOnLookups(apps, manifests, packages1, packages2)
    ensures Run(apps, manifests, packages1) == Run(apps, manifests, packages2)
    decreases |apps|
  {
    if apps != [] {
      var init := apps[..|apps| - 1];
      AgreeSnoc(apps, manifests, packages1, packages2);
      RunLocal(init, manifests, packages1, packages2);
      if Run(init, manifests, packages1).Ok? {
        RunReport(init, manifests, packages1);
        StepLocal(apps, manifests, packages1, packages2, Run(init, manifests, packages1).value);
      }
    }
  }

  /** An identifier is declared exactly when some application declares it. */
  lemma DeclaredMembers(apps: seq<string>, manifests: ManifestReader, d: string)
    ensures d in Declared(apps, manifests) <==> exists i :: 0 <= i < |apps| && d in DeclaredBy(manifests, apps[i])
  {
    FlatMapMembers(apps, DeclaredByOf(manifests), d);
  }

  /** The declarer is the earliest application whose list contains the identifier. */
  lemma DeclarerIsFirst(apps: seq<string>, manifests: ManifestReader, d: string)
    requires d in Declared(apps, manifests)
    ensures exists i :: && 0 <= i < |apps| && apps[i] == Declarer(apps, manifests, d)
                        && d in DeclaredBy(manifests, apps[i])
                        && forall j :: 0 <= j < i ==> d !in DeclaredBy(manifests, apps[j])
  {
    FirstWithIsFirst(apps, DeclaredByOf(manifests), d);
  }

  lemma AppendInit(apps: seq<string>, more: seq<string>)
    requires more != []
    ensures var c := apps + more;
            && c != []
            && c[..|c| - 1] == apps + more[..|more| - 1]
            && c[|c| - 1] == more[|more| - 1]
  {
    var c := apps + more;
    assert c[..|c| - 1] == apps + more[..|more| - 1];
  }

  /** Once a run has failed, further applications change nothing. */
  lemma {:induction false} RunAppendAfterError(apps: seq<string>, more: seq<string>, manifests: ManifestReader, packages: PackageReader)
    requires Run(apps, manifests, packages).Err?
    ensures Run(apps + more, manifests, packages) == Run(apps, manifests, packages)
    decreases |more|
  {
    if more == [] {
      assert apps + more == apps;
    } else {
      AppendInit(apps, more);
      RunAppendAfterError(apps, more[..|more| - 1], manifests, packages);
    }
  }

  lemma StepCovered(apps: seq<string>, manifests: ManifestReader, packages: PackageReader, rep: Report, app: string)
    requires Explains(rep, apps, manifests, packages)
    requires app in apps && Readable(manifests, app)
    ensures Step(rep, app, manifests, packages) == Ok(rep)
  {
    var i :| 0 <= i < |apps| && apps[i] == app;
    FlatMapIncludes(apps, DeclaredByOf(manifests), i);
    UnseenAllSeen(DeclaredBy(manifests, app), rep.dependencies);
  }

  /** Visiting again applications already visited changes nothing: every identifier they
      declare has been seen, so each is skipped without a lookup. */
  lemma {:induction false} RunAppendCovered(apps: seq<string>, more: seq<string>, manifests: ManifestReader, packages: PackageReader)
    requires Run(apps, manifests, packages).Ok?
    requires forall a :: a in more ==> a in apps
    ensures Run(apps + more, manifests, packages) == Run(apps, manifests, packages)
    decreases |more|
  {
    if more == [] {
      assert apps + more == apps;
    } else {
      var init, app := more[..|more| - 1], more[|more| - 1];
      SnocMembers(more);
      AppendInit(apps, more);
      RunAppendCovered(apps, init, manifests, packages);
      RunInvariants(apps, manifests, packages);
      RunReport(apps, manifests, packages);
      StepCovered(apps, manifests, packages, Run(apps, manifests, packages).value, app);
    }
  }

  /** Listing the applications twice gives the same outcome as listing them once. */
  lemma Rerun(apps: seq<string>, manifests: ManifestReader, packages: PackageReader)
    ensures Run(apps + apps, manifests, packages) == Run(apps, manifests, packages)
  {
    if Run(apps, manifests, packages).Err? {
      RunAppendAfterError(apps, apps, manifests, packages);
    } else {
      RunAppendCovered(apps, apps, manifests, packages);
    }
  }

  /** The row the template renders for an installed package's metadata. */
  function RowFrom(meta: PackageMeta): Row {
    Row(Some(meta.name), Some(meta.version), meta.description)
  }

  lemma RowsExplained(rep: Report, apps: seq<string>, manifests: ManifestReader, packages: PackageReader)
    requires Explains(rep, apps, manifests, packages)
    ensures |Rows(rep)| == |rep.dependencies|
    ensures forall i :: 0 <= i < |rep.dependencies| ==>
              && rep.dependencies[i] in Declared(apps, manifests)
              && packages(rep.dependencies[i], Declarer(apps, manifests, rep.dependencies[i])).Some?
              && Rows(rep)[i] == RowFrom(packages(rep.dependencies[i], Declarer(apps, manifests, rep.dependencies[i])).value)
  {
    forall i | 0 <= i < |rep.dependencies|
      ensures && rep.dependencies[i] in Declared(apps, manifests)
              && packages(rep.dependencies[i], Declarer(apps, manifests, rep.dependencies[i])).Some?
              && Rows(rep)[i] == RowFrom(packages(rep.dependencies[i], Declarer(apps, manifests, rep.dependencies[i])).value)
    {
      var d := rep.dependencies[i];
      assert d in rep.dependencies;
    }
  }

  /** The rendered table: one row per accumulated identifier, in order, showing the
      name, version and description found under the identifier's first declarer. */
  lemma ReportRows(apps: seq<string>, manifests: ManifestReader, packages: PackageReader)
    requires Run(apps, manifests, packages).Ok?
    ensures var rep := Run(apps, manifests, packages).value;
            && |Rows(rep)| == |rep.dependencies|
            && forall i :: 0 <= i < |rep.dependencies| ==>
                 && rep.dependencies[i] in Declared(apps, manifests)
                 && packages(rep.dependencies[i], Declarer(apps, manifests, rep.dependencies[i])).Some?
                 && Rows(rep)[i] == RowFrom(packages(rep.dependencies[i], Declarer(apps, manifests, rep.dependencies[i])).value)
  {
    RunReport(apps, manifests, packages);
    RowsExplained(Run(apps, manifests, packages).value, apps, manifests, packages);
  }
}
