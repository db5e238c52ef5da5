/** One project converted for the new platform: ProcessProjectFileConfiguration
    (VSProjectFixer/Program.cs:305-959) run for one configuration, and the
    library branch of ProcessProjectFile (lines 961-975, 1069-1088) that runs it
    for the four configurations. */
module Project {
  import opened Results
  import opened Xml
  import opened Platform
  import opened MapFile
  import opened Filters
  import opened References
  import opened Reconcile
  import opened Configuration

  /** The document element of every project file. */
  const Root := "VisualStudioProject"

  /** The configurations every library is converted for, in order. */
  const ConfigurationNames: seq<string> := ["Debug", "OptDebug", "QA", "Retail"]

  /** The source-control bindings removed from the project element. */
  const SccAttributes: seq<string> := ["SccProjectName", "SccAuxPath", "SccLocalPath", "SccProvider"]

  /** `<Platform Name="Xbox"/>`, added to the project's platforms. */
  const XboxPlatform := Node("Platform", [Attr("Name", "Xbox")], [])

  /** `SelectSingleNode("/VisualStudioProject/<tag>")`: the position of the
      first child with that tag; a null node, and so a NullReference on use,
      when there is none or the document element is not a project. */
  function Section(doc: Node, tag: string): (r: Result<nat>)
    ensures r.Success? <==> doc.tag == Root && FirstTagged(doc.children, tag).Some?
    ensures r.Success? ==> FirstTagged(doc.children, tag) == Some(r.value)
    ensures r.Failure? ==> r.fault == NullReference
  {
    if doc.tag != Root then Failure(NullReference) else Require(FirstTagged(doc.children, tag))
  }

  /** Children that keep their tags keep the position of the first of each tag. */
  lemma {:induction false} FirstTaggedSameTags(a: seq<Node>, b: seq<Node>, tag: string)
    requires |a| == |b| && forall j :: 0 <= j < |a| ==> a[j].tag == b[j].tag
    ensures FirstTagged(a, tag) == FirstTagged(b, tag)
    decreases |a|
  {
    if |a| > 0 {
      FirstTaggedSameTags(a[1..], b[1..], tag);
    }
  }

  // ---------------------------------------------------------------------------
  // The per-library edits (ReferenceFile and ExcludeFileReference calls)
  // ---------------------------------------------------------------------------

  /** One line of a library's edit list: a ReferenceFile call (with its optional
      alternate object name) or an ExcludeFileReference call. */
  datatype Edit =
    | Reference(filterPath: string, path: string, alt: Option<string>)
    | Exclude(filterPath: string, path: string)

  datatype Applied = Applied(files: Node, found: set<string>)

  /** The objects the ReferenceFile calls of a list declare found: one per
      referenced path, headers included. */
  function ReferencedObjects(edits: seq<Edit>): set<string>
    decreases |edits|
  {
    if |edits| == 0 then {}
    else (if edits[0].Reference? then {ObjectName(edits[0].path)} else {}) + ReferencedObjects(edits[1..])
  }

  /** An object is declared found exactly when some ReferenceFile call names a
      path with that object name. */
  lemma {:induction false} ReferencedObjectsMembers(edits: seq<Edit>, o: string)
    ensures o in ReferencedObjects(edits) <==>
              exists i :: 0 <= i < |edits| && edits[i].Reference? && ObjectName(edits[i].path) == o
    decreases |edits|
  {
    if |edits| > 0 {
      var tail := edits[1..];
      ReferencedObjectsMembers(tail, o);
      if o in ReferencedObjects(tail) {
        var i :| 0 <= i < |tail| && tail[i].Reference? && ObjectName(tail[i].path) == o;
        assert edits[i + 1] == tail[i];
      }
      if exists i :: 0 <= i < |edits| && edits[i].Reference? && ObjectName(edits[i].path) == o {
        var i :| 0 <= i < |edits| && edits[i].Reference? && ObjectName(edits[i].path) == o;
        if i > 0 { assert tail[i - 1] == edits[i]; }
      }
    }
  }

  /** The edits applied in order to the Files element; every ReferenceFile also
      adds its object to the found set. */
  function ApplyEdits(files: Node, edits: seq<Edit>, c: string, found: set<string>): (r: Result<Applied>)
    ensures r.Success? ==> r.value.found == found + ReferencedObjects(edits)
    ensures r.Success? ==> r.value.files.tag == files.tag && r.value.files.attrs == files.attrs
    ensures r.Failure? ==> r.fault == NullReference || r.fault == AssertionFailed
    decreases |edits|
  {
    if |edits| == 0 then Success(Applied(files, found))
    else
      match edits[0]
      case Reference(filterPath, path, alt) =>
        var added :- AddFileReference(files, filterPath, path, c, alt);
        ApplyEdits(added, edits[1..], c, found + {ObjectName(path)})
      case Exclude(filterPath, path) =>
        var excluded :- ExcludeFileReference(files, filterPath, path, c);
        ApplyEdits(excluded, edits[1..], c, found)
  }

  /** The edits are applied in order: applying a list and then another is
      applying the two lists joined, and a throw in the first list ends it. */
  lemma {:induction false} ApplyEditsAppend(files: Node, a: seq<Edit>, b: seq<Edit>, c: string, found: set<string>)
    ensures var ra := ApplyEdits(files, a, c, found);
      ApplyEdits(files, a + b, c, found) ==
        if ra.Failure? then Failure(ra.fault) else ApplyEdits(ra.value.files, b, c, ra.value.found)
    decreases |a|
  {
    if |a| == 0 {
      assert a + b == b;
    } else {
      assert (a + b)[0] == a[0] && (a + b)[1..] == a[1..] + b;
      match a[0]
      case Reference(filterPath, path, alt) =>
        var added := AddFileReference(files, filterPath, path, c, alt);
        if added.Success? {
          ApplyEditsAppend(added.value, a[1..], b, c, found + {ObjectName(path)});
        }
      case Exclude(filterPath, path) =>
        var excluded := ExcludeFileReference(files, filterPath, path, c);
        if excluded.Success? {
          ApplyEditsAppend(excluded.value, a[1..], b, c, found);
        }
    }
  }

  /** The edits keep attribute names unique. */
  lemma {:induction false} ApplyEditsWellFormed(files: Node, edits: seq<Edit>, c: string, found: set<string>)
    requires WellFormed(files) && ApplyEdits(files, edits, c, found).Success?
    ensures WellFormed(ApplyEdits(files, edits, c, found).value.files)
    decreases |edits|
  {
    if |edits| > 0 {
      match edits[0]
      case Reference(filterPath, path, alt) =>
        var added := AddFileReference(files, filterPath, path, c, alt).value;
        ApplyEditsWellFormed(added, edits[1..], c, found + {ObjectName(path)});
      case Exclude(filterPath, path) =>
        ExcludeFileReferenceWellFormed(files, filterPath, path, c);
        var excluded := ExcludeFileReference(files, filterPath, path, c).value;
        ApplyEditsWellFormed(excluded, edits[1..], c, found);
    }
  }

  /** The last edit of a list holds afterwards: its filter exists, and it
      references the file, or it excludes the file, for the configuration. */
  lemma {:induction false} ApplyEditsLastHolds(files: Node, edits: seq<Edit>, e: Edit, c: string, found: set<string>)
    requires WellFormed(files) && ApplyEdits(files, edits + [e], c, found).Success?
    ensures var r := ApplyEdits(files, edits + [e], c, found).value.files;
      && Reach(r, Segments(e.filterPath)).Some?
      && (e.Reference? ==> Referenced(Reach(r, Segments(e.filterPath)).value, e.path, c))
      && (e.Exclude? ==> ExcludedFrom(Reach(r, Segments(e.filterPath)).value, e.path, c))
  {
    ApplyEditsAppend(files, edits, [e], c, found);
    var mid := ApplyEdits(files, edits, c, found).value;
    ApplyEditsWellFormed(files, edits, c, found);
    assert [e][1..] == [];
    match e
    case Reference(filterPath, path, alt) =>
    case Exclude(filterPath, path) =>
      ExcludeInFilterExcludes(Reach(mid.files, Segments(filterPath)).value, path, c);
  }

  // ---------------------------------------------------------------------------
  // One configuration
  // ---------------------------------------------------------------------------

  /** The document after one configuration, the objects found, the MISSING FILE
      paths, and the MISSING DEPENDENCY objects. */
  datatype Processed = Processed(doc: Node, found: set<string>, missingFiles: seq<string>, missingDependencies: set<string>)

  /** What the reconciler of configuration `c` is given. */
  function ContextFor(lib: string, c: string, table: LibraryTable, baseDirectory: string, fileExists: string -> bool): Context
    requires lib in table
  {
    Context(c, table[lib], baseDirectory, fileExists)
  }

  /** What step 3 and the edits give: the new Files element, the objects
      found and the MISSING FILE paths. */
  datatype FilesOutcome = FilesOutcome(files: Node, found: set<string>, missing: seq<string>)

  /** Step 3 and the library's edits on the Files element. */
  function ConvertFiles(files: Node, ctx: Context, edits: seq<Edit>): (r: Result<FilesOutcome>)
    ensures r.Success? ==> r.value.files.tag == files.tag
    ensures r.Success? ==>
      && r.value.found == FoundBy(FilesIn(files.children), ctx) + ReferencedObjects(edits)
      && r.value.missing == MissingIn(FilesIn(files.children), ctx)
  {
    var walked :- FixChildren(files.children, ctx, Report({}, []));
    FixChildrenSpec(files.children, ctx, Report({}, []));
    var edited :- ApplyEdits(files.(children := walked.nodes), edits, ctx.c, walked.report.found);
    Success(FilesOutcome(edited.files, edited.found, walked.report.missing))
  }

  /** The edits are applied to the Files element after the walk, whose
      children are each reconciled. */
  lemma {:induction false} ConvertFilesWalks(files: Node, ctx: Context, edits: seq<Edit>)
    requires ConvertFiles(files, ctx, edits).Success?
    ensures var w := FixChildren(files.children, ctx, Report({}, []));
      && w.Success? && |w.value.nodes| == |files.children|
      && (forall i :: 0 <= i < |files.children| ==> Reconciled(files.children[i], w.value.nodes[i], ctx))
      && var applied := ApplyEdits(files.(children := w.value.nodes), edits, ctx.c, w.value.report.found);
         applied.Success? && applied.value.files == ConvertFiles(files, ctx, edits).value.files
  {
    FixChildrenSpec(files.children, ctx, Report({}, []));
  }

  /** The document with child `i` replaced by an element of the same tag. */
  function ReplaceChild(doc: Node, i: nat, n: Node): (r: Node)
    requires i < |doc.children| && n.tag == doc.children[i].tag
    ensures r.tag == doc.tag && r.attrs == doc.attrs && |r.children| == |doc.children| && r.children[i] == n
    ensures forall j :: 0 <= j < |doc.children| && j != i ==> r.children[j] == doc.children[j]
    ensures FirstTagged(r.children, "Configurations") == FirstTagged(doc.children, "Configurations")
    ensures FirstTagged(r.children, "Files") == FirstTagged(doc.children, "Files")
  {
    var r := doc.(children := doc.children[i := n]);
    FirstTaggedSameTags(doc.children, r.children, "Configurations");
    FirstTaggedSameTags(doc.children, r.children, "Files");
    r
  }

  /** ProcessProjectFileConfiguration: the configurations (step 2), then the
      library's required objects, then the walk over the files (step 3), then
      the library's edits, then the set of required objects not found. */
  function ProcessConfiguration(doc: Node, lib: string, c: string, table: LibraryTable,
                                baseDirectory: string, fileExists: string -> bool, edits: seq<Edit>): (r: Result<Processed>)
    ensures Section(doc, "Configurations").Failure? ==> r == Failure(NullReference)
    ensures (Section(doc, "Configurations").Success?
             && ProcessConfigurations(doc.children[Section(doc, "Configurations").value], lib, c).Success?
             && lib !in table) ==> r == Failure(KeyNotFound)
    ensures r.Success? ==> lib in table && Section(doc, "Configurations").Success? && Section(doc, "Files").Success?
    ensures r.Success? ==>
      var ci := Section(doc, "Configurations").value;
      var fi := Section(doc, "Files").value;
      && r.value.doc.tag == doc.tag && r.value.doc.attrs == doc.attrs
      && |r.value.doc.children| == |doc.children|
      && FirstTagged(r.value.doc.children, "Configurations") == Some(ci)
      && (forall j :: 0 <= j < |doc.children| && j != ci && j != fi ==> r.value.doc.children[j] == doc.children[j])
      && ProcessConfigurations(doc.children[ci], lib, c) == Success(r.value.doc.children[ci])
  {
    var ci :- Section(doc, "Configurations");
    var configs :- ProcessConfigurations(doc.children[ci], lib, c);
    if lib !in table then Failure(KeyNotFound)
    else
      var withConfigs := ReplaceChild(doc, ci, configs);
      var fi :- Section(withConfigs, "Files");
      assert fi != ci;
      var converted :- ConvertFiles(withConfigs.children[fi], ContextFor(lib, c, table, baseDirectory, fileExists), edits);
      Success(Processed(ReplaceChild(withConfigs, fi, converted.files),
                        converted.found, converted.missing, table[lib] - converted.found))
  }

  /** The reports of one configuration: an object is found when a needed file
      on disk produces it or the edit list references it; a required object is
      reported missing exactly when it is found neither way; and the missing
      files are the needed source files not on disk, in tree order. */
  lemma {:induction false} ProcessConfigurationReport(doc: Node, lib: string, c: string, table: LibraryTable,
                                   baseDirectory: string, fileExists: string -> bool, edits: seq<Edit>)
    requires ProcessConfiguration(doc, lib, c, table, baseDirectory, fileExists, edits).Success?
    ensures var p := ProcessConfiguration(doc, lib, c, table, baseDirectory, fileExists, edits).value;
      var ctx := ContextFor(lib, c, table, baseDirectory, fileExists);
      var files := FilesIn(doc.children[Section(doc, "Files").value].children);
      && p.found == FoundBy(files, ctx) + ReferencedObjects(edits)
      && p.missingFiles == MissingIn(files, ctx)
      && forall o :: o in p.missingDependencies <==>
           o in table[lib] && o !in FoundBy(files, ctx) && o !in ReferencedObjects(edits)
  {
    var ci := Section(doc, "Configurations").value;
    var configs := ProcessConfigurations(doc.children[ci], lib, c).value;
    var withConfigs := ReplaceChild(doc, ci, configs);
    var fi := Section(withConfigs, "Files").value;
    assert fi != ci && withConfigs.children[fi] == doc.children[fi];
    var converted := ConvertFiles(withConfigs.children[fi], ContextFor(lib, c, table, baseDirectory, fileExists), edits).value;
    assert ProcessConfiguration(doc, lib, c, table, baseDirectory, fileExists, edits).value.found == converted.found;
  }

  /** The Files element of the result is what ConvertFiles makes of the
      document's Files element for this configuration, and the reports are
      those of that conversion, with the required objects it did not find
      reported missing. */
  lemma {:induction false} ProcessConfigurationFiles(doc: Node, lib: string, c: string, table: LibraryTable,
                                  baseDirectory: string, fileExists: string -> bool, edits: seq<Edit>)
    requires ProcessConfiguration(doc, lib, c, table, baseDirectory, fileExists, edits).Success?
    ensures var p := ProcessConfiguration(doc, lib, c, table, baseDirectory, fileExists, edits).value;
      var fi := Section(doc, "Files").value;
      var converted := ConvertFiles(doc.children[fi], ContextFor(lib, c, table, baseDirectory, fileExists), edits);
      && converted.Success?
      && p.doc.children[fi] == converted.value.files
      && p.found == converted.value.found
      && p.missingFiles == converted.value.missing
      && p.missingDependencies == table[lib] - converted.value.found
  {
    var ci := Section(doc, "Configurations").value;
    var configs := ProcessConfigurations(doc.children[ci], lib, c).value;
    var withConfigs := ReplaceChild(doc, ci, configs);
    var fi := Section(withConfigs, "Files").value;
    assert fi != ci && withConfigs.children[fi] == doc.children[fi];
  }

  /** The document holds, among its configurations, one fit for building `d`
      for the new platform. */
  ghost predicate HasXbox(doc: Node, d: string) {
    match FirstTagged(doc.children, "Configurations")
    case None => false
    case Some(ci) => exists i :: 0 <= i < |doc.children[ci].children| && IsXboxConfiguration(doc.children[ci].children[i], d)
  }

  /** The document's Configurations element, if any, is well formed. */
  ghost predicate ConfigurationsWellFormed(doc: Node) {
    match FirstTagged(doc.children, "Configurations")
    case None => true
    case Some(ci) => WellFormed(doc.children[ci])
  }

  /** Processing configuration `c` provides it, and keeps every configuration
      already provided for another one. */
  lemma {:induction false} ProcessConfigurationProvides(doc: Node, lib: string, c: string, table: LibraryTable,
                                     baseDirectory: string, fileExists: string -> bool, edits: seq<Edit>, d: string)
    requires ConfigurationsWellFormed(doc)
    requires ProcessConfiguration(doc, lib, c, table, baseDirectory, fileExists, edits).Success?
    ensures ConfigurationsWellFormed(ProcessConfiguration(doc, lib, c, table, baseDirectory, fileExists, edits).value.doc)
    ensures HasXbox(ProcessConfiguration(doc, lib, c, table, baseDirectory, fileExists, edits).value.doc, c)
    ensures HasXbox(doc, d) ==> HasXbox(ProcessConfiguration(doc, lib, c, table, baseDirectory, fileExists, edits).value.doc, d)
  {
    var after := ProcessConfiguration(doc, lib, c, table, baseDirectory, fileExists, edits).value.doc;
    ConfigurationsProvided(doc, after, lib, c);
    if HasXbox(doc, d) {
      ConfigurationsKept(doc, after, lib, c, d);
    }
  }

  /** The same at the level of the Configurations element: a document whose
      Configurations element went through step 2 provides `c`... */
  lemma {:induction false} ConfigurationsProvided(doc: Node, after: Node, lib: string, c: string)
    requires ConfigurationsWellFormed(doc) && FirstTagged(doc.children, "Configurations").Some?
    requires var ci := FirstTagged(doc.children, "Configurations").value;
      && FirstTagged(after.children, "Configurations") == Some(ci)
      && ProcessConfigurations(doc.children[ci], lib, c) == Success(after.children[ci])
    ensures ConfigurationsWellFormed(after) && HasXbox(after, c)
  {
    var ci := FirstTagged(doc.children, "Configurations").value;
    ProcessConfigurationsProvides(doc.children[ci], lib, c);
    ProcessConfigurationsWellFormed(doc.children[ci], lib, c);
  }

  /** ... and keeps every other configuration `d` it provided before. */
  lemma {:induction false} ConfigurationsKept(doc: Node, after: Node, lib: string, c: string, d: string)
    requires FirstTagged(doc.children, "Configurations").Some?
    requires var ci := FirstTagged(doc.children, "Configurations").value;
      && FirstTagged(after.children, "Configurations") == Some(ci)
      && ProcessConfigurations(doc.children[ci], lib, c) == Success(after.children[ci])
    requires HasXbox(doc, d)
    ensures HasXbox(after, d)
  {
    var ci := FirstTagged(doc.children, "Configurations").value;
    var configs := doc.children[ci];
    var i :| 0 <= i < |configs.children| && IsXboxConfiguration(configs.children[i], d);
    ProcessConfigurationsKeepsOther(configs, lib, c, d, i);
    assert IsXboxConfiguration(after.children[ci].children[i], d);
  }

  // ---------------------------------------------------------------------------
  // The library project
  // ---------------------------------------------------------------------------

  /** One step of the run: it provides its configuration, keeps those already
      provided, and leaves every other section alone. */
  lemma {:induction false} StepKeeps(doc: Node, lib: string, c: string, table: LibraryTable,
                  baseDirectory: string, fileExists: string -> bool, edits: seq<Edit>)
    requires ConfigurationsWellFormed(doc)
    requires ProcessConfiguration(doc, lib, c, table, baseDirectory, fileExists, edits).Success?
    ensures var after := ProcessConfiguration(doc, lib, c, table, baseDirectory, fileExists, edits).value.doc;
      && ConfigurationsWellFormed(after) && HasXbox(after, c)
      && (forall d :: HasXbox(doc, d) ==> HasXbox(after, d))
      && (forall j :: 0 <= j < |doc.children| && Untouched(doc.children[j]) ==> after.children[j] == doc.children[j])
  {
    var after := ProcessConfiguration(doc, lib, c, table, baseDirectory, fileExists, edits).value.doc;
    ProcessConfigurationProvides(doc, lib, c, table, baseDirectory, fileExists, edits, c);
    forall d | HasXbox(doc, d) ensures HasXbox(after, d) {
      ProcessConfigurationProvides(doc, lib, c, table, baseDirectory, fileExists, edits, d);
    }
    var ci := Section(doc, "Configurations").value;
    var fi := Section(doc, "Files").value;
    forall j | 0 <= j < |doc.children| && Untouched(doc.children[j]) ensures after.children[j] == doc.children[j] {
      assert j != ci && j != fi;
    }
  }

  /** What the first step provides and the later steps keep, together with
      what the later steps provide, is every configuration of the run. */
  lemma {:induction false} ProvidedAll(first: Node, last: Node, names: seq<string>)
    requires |names| > 0 && HasXbox(first, names[0])
    requires forall d :: HasXbox(first, d) ==> HasXbox(last, d)
    requires forall k :: 0 <= k < |names[1..]| ==> HasXbox(last, names[1..][k])
    ensures forall k :: 0 <= k < |names| ==> HasXbox(last, names[k])
  {
    forall k | 0 <= k < |names| ensures HasXbox(last, names[k]) {
      if k > 0 {
        assert names[k] == names[1..][k - 1];
      }
    }
  }

  /** A section of the project that processing a configuration leaves alone. */
  predicate Untouched(n: Node) {
    n.tag != "Configurations" && n.tag != "Files"
  }

  /** The result of converting a library for all its configurations: the final
      document and the reports of each configuration in turn. */
  datatype Run = Run(doc: Node, steps: seq<Processed>)

  /** The configurations processed one after the other on the same document.
      `edits(c)` is the library's edit list for configuration `c`: the lists
      may depend on it, as x_files excludes one file for Retail only. */
  function RunConfigurations(doc: Node, names: seq<string>, lib: string, table: LibraryTable,
                             baseDirectory: string, fileExists: string -> bool, edits: string -> seq<Edit>): (r: Result<Run>)
    requires ConfigurationsWellFormed(doc)
    ensures r.Success? ==> |r.value.steps| == |names|
    ensures r.Success? ==> r.value.doc.tag == doc.tag && r.value.doc.attrs == doc.attrs
    ensures r.Success? ==> |r.value.doc.children| == |doc.children|
    ensures r.Success? ==> forall j :: 0 <= j < |doc.children| && Untouched(doc.children[j]) ==>
              r.value.doc.children[j] == doc.children[j]
    ensures r.Success? ==> forall k :: 0 <= k < |names| ==> HasXbox(r.value.doc, names[k])
    ensures r.Success? ==> forall d :: HasXbox(doc, d) ==> HasXbox(r.value.doc, d)
    decreases |names|
  {
    if |names| == 0 then Success(Run(doc, []))
    else
      var p :- ProcessConfiguration(doc, lib, names[0], table, baseDirectory, fileExists, edits(names[0]));
      StepKeeps(doc, lib, names[0], table, baseDirectory, fileExists, edits(names[0]));
      var rest :- RunConfigurations(p.doc, names[1..], lib, table, baseDirectory, fileExists, edits);
      ProvidedAll(p.doc, rest.doc, names);
      Success(Run(rest.doc, [p] + rest.steps))
  }

  /** One step of the run unfolded: its first report is the first
      configuration processed on the given document, and the rest of the run
      starts from the document that step left. */
  lemma {:induction false} RunUnfold(doc: Node, names: seq<string>, lib: string, table: LibraryTable,
                  baseDirectory: string, fileExists: string -> bool, edits: string -> seq<Edit>)
    requires ConfigurationsWellFormed(doc) && |names| > 0
    requires RunConfigurations(doc, names, lib, table, baseDirectory, fileExists, edits).Success?
    ensures var run := RunConfigurations(doc, names, lib, table, baseDirectory, fileExists, edits).value;
      && ProcessConfiguration(doc, lib, names[0], table, baseDirectory, fileExists, edits(names[0])) == Success(run.steps[0])
      && ConfigurationsWellFormed(run.steps[0].doc)
      && RunConfigurations(run.steps[0].doc, names[1..], lib, table, baseDirectory, fileExists, edits)
           == Success(Run(run.doc, run.steps[1..]))
  {
    var p := ProcessConfiguration(doc, lib, names[0], table, baseDirectory, fileExists, edits(names[0])).value;
    StepKeeps(doc, lib, names[0], table, baseDirectory, fileExists, edits(names[0]));
    var rest := RunConfigurations(p.doc, names[1..], lib, table, baseDirectory, fileExists, edits).value;
    assert ([p] + rest.steps)[1..] == rest.steps;
  }

  /** `steps` are the reports of applying `step` to `names` one after the
      other from `doc`: the first on `doc` itself, each later one on the
      document the step before it left. */
  ghost predicate Chained(doc: Node, names: seq<string>, steps: seq<Processed>, step: (Node, string) -> Result<Processed>) {
    && |steps| == |names|
    && (|names| > 0 ==> step(doc, names[0]) == Success(steps[0]))
    && forall k :: 0 < k < |names| ==> step(steps[k - 1].doc, names[k]) == Success(steps[k])
  }

  lemma {:induction false} ChainedCons(doc: Node, names: seq<string>, p: Processed, rest: seq<Processed>,
                                       step: (Node, string) -> Result<Processed>)
    requires |names| > 0 && step(doc, names[0]) == Success(p)
    requires Chained(p.doc, names[1..], rest, step)
    ensures Chained(doc, names, [p] + rest, step)
  {
    var steps := [p] + rest;
    forall k | 0 < k < |names| ensures step(steps[k - 1].doc, names[k]) == Success(steps[k]) {
      assert names[k] == names[1..][k - 1] && steps[k] == rest[k - 1];
      if k > 1 {
        assert steps[k - 1] == rest[k - 2];
      }
    }
  }

  /** The run step by step: its reports are the configurations processed one
      after the other from the given document, and it ends with the document
      of its last step. */
  lemma {:induction false} RunConfigurationsSteps(doc: Node, names: seq<string>, lib: string, table: LibraryTable,
                               baseDirectory: string, fileExists: string -> bool, edits: string -> seq<Edit>)
    requires ConfigurationsWellFormed(doc)
    requires RunConfigurations(doc, names, lib, table, baseDirectory, fileExists, edits).Success?
    ensures var run := RunConfigurations(doc, names, lib, table, baseDirectory, fileExists, edits).value;
      && Chained(doc, names, run.steps, (d, c) => ProcessConfiguration(d, lib, c, table, baseDirectory, fileExists, edits(c)))
      && run.doc == if |names| == 0 then doc else run.steps[|names| - 1].doc
    decreases |names|
  {
    var run := RunConfigurations(doc, names, lib, table, baseDirectory, fileExists, edits).value;
    if |names| > 0 {
      RunUnfold(doc, names, lib, table, baseDirectory, fileExists, edits);
      var first := run.steps[0];
      RunConfigurationsSteps(first.doc, names[1..], lib, table, baseDirectory, fileExists, edits);
      ChainedCons(doc, names, first, run.steps[1..],
                  (d, c) => ProcessConfiguration(d, lib, c, table, baseDirectory, fileExists, edits(c)));
      assert [first] + run.steps[1..] == run.steps;
    }
  }

  /** RemoveAttributeIfFound for each name in turn. */
  function RemoveAll(attrs: seq<Attr>, names: seq<string>): (r: seq<Attr>)
    ensures forall other :: other !in names ==> GetAttr(r, other) == GetAttr(attrs, other)
    ensures UniqueNames(attrs) ==> UniqueNames(r) && forall k :: 0 <= k < |names| ==> GetAttr(r, names[k]).None?
    decreases |names|
  {
    if |names| == 0 then attrs
    else
      var once := RemoveAttributeIfFound(attrs, names[0]);
      var r := RemoveAll(once, names[1..]);
      assert forall other :: other !in names ==> GetAttr(r, other) == GetAttr(attrs, other) by {
        forall other | other !in names ensures GetAttr(r, other) == GetAttr(attrs, other) {
          assert other !in names[1..] && other != names[0];
        }
      }
      assert UniqueNames(attrs) ==> UniqueNames(r) && forall k :: 0 <= k < |names| ==> GetAttr(r, names[k]).None? by {
        if UniqueNames(attrs) {
          forall k | 0 <= k < |names| ensures GetAttr(r, names[k]).None? {
            if k > 0 {
              assert names[k] == names[1..][k - 1];
            } else if names[0] !in names[1..] {
              assert GetAttr(once, names[0]).None?;
            } else {
              var j :| 0 <= j < |names[1..]| && names[1..][j] == names[0];
            }
          }
        }
      }
      r
  }

  /** The library branch of ProcessProjectFile: the source-control bindings
      are removed from the project element, the new platform is added to the
      Platforms element, and the four configurations are processed in turn. */
  function ProcessLibraryProject(doc: Node, lib: string, table: LibraryTable,
                                 baseDirectory: string, fileExists: string -> bool, edits: string -> seq<Edit>): (r: Result<Run>)
    requires ConfigurationsWellFormed(doc)
    ensures doc.tag != Root || FirstTagged(doc.children, "Platforms").None? ==> r == Failure(NullReference)
    ensures r.Success? ==> |r.value.steps| == |ConfigurationNames|
    ensures r.Success? ==> forall k :: 0 <= k < |ConfigurationNames| ==> HasXbox(r.value.doc, ConfigurationNames[k])
  {
    if doc.tag != Root then Failure(NullReference)
    else
      var withPlatform :- Prepared(doc);
      RunConfigurations(withPlatform, ConfigurationNames, lib, table, baseDirectory, fileExists, edits)
  }

  /** The project element before the configurations are processed: without its
      source-control bindings, and with the new platform appended to Platforms. */
  function Prepared(doc: Node): (r: Result<Node>)
    requires doc.tag == Root
    ensures r.Success? <==> FirstTagged(doc.children, "Platforms").Some?
    ensures r.Failure? ==> r.fault == NullReference
    ensures r.Success? ==> r.value.tag == doc.tag && r.value.attrs == RemoveAll(doc.attrs, SccAttributes) && |r.value.children| == |doc.children|
    ensures r.Success? ==> ConfigurationsWellFormed(doc) ==> ConfigurationsWellFormed(r.value)
    ensures r.Success? ==> forall j :: 0 <= j < |doc.children| && j != FirstTagged(doc.children, "Platforms").value ==>
              r.value.children[j] == doc.children[j]
    ensures r.Success? ==>
      var pi := FirstTagged(doc.children, "Platforms").value;
      r.value.children[pi] == doc.children[pi].(children := doc.children[pi].children + [XboxPlatform])
  {
    WithPlatform(doc.(attrs := RemoveAll(doc.attrs, SccAttributes)))
  }

  /** Step 1 of the library branch: `<Platform Name="Xbox"/>` appended to the
      first Platforms element; a NullReference when there is none. */
  function WithPlatform(doc: Node): (r: Result<Node>)
    requires doc.tag == Root
    ensures r.Success? <==> FirstTagged(doc.children, "Platforms").Some?
    ensures r.Failure? ==> r.fault == NullReference
    ensures r.Success? ==> r.value.tag == doc.tag && r.value.attrs == doc.attrs && |r.value.children| == |doc.children|
    ensures r.Success? ==> ConfigurationsWellFormed(doc) ==> ConfigurationsWellFormed(r.value)
    ensures r.Success? ==> forall j :: 0 <= j < |doc.children| && j != FirstTagged(doc.children, "Platforms").value ==>
              r.value.children[j] == doc.children[j]
    ensures r.Success? ==>
      var pi := FirstTagged(doc.children, "Platforms").value;
      r.value.children[pi] == doc.children[pi].(children := doc.children[pi].children + [XboxPlatform])
  {
    var pi :- Section(doc, "Platforms");
    var platforms := doc.children[pi];
    Success(ReplaceChild(doc, pi, platforms.(children := platforms.children + [XboxPlatform])))
  }

  /** The finished library project keeps what was prepared outside the
      configurations and the files: no source-control binding is left, and the
      Platforms element ends with the new platform. */
  lemma {:induction false} ProcessLibraryProjectDocument(doc: Node, lib: string, table: LibraryTable,
                                 baseDirectory: string, fileExists: string -> bool, edits: string -> seq<Edit>)
    requires ConfigurationsWellFormed(doc) && ProcessLibraryProject(doc, lib, table, baseDirectory, fileExists, edits).Success?
    ensures var r := ProcessLibraryProject(doc, lib, table, baseDirectory, fileExists, edits).value;
      forall other :: other !in SccAttributes ==> GetAttr(r.doc.attrs, other) == GetAttr(doc.attrs, other)
    ensures var r := ProcessLibraryProject(doc, lib, table, baseDirectory, fileExists, edits).value;
      UniqueNames(doc.attrs) ==> forall k :: 0 <= k < |SccAttributes| ==> GetAttr(r.doc.attrs, SccAttributes[k]).None?
    ensures var r := ProcessLibraryProject(doc, lib, table, baseDirectory, fileExists, edits).value;
      var pi := FirstTagged(doc.children, "Platforms").value;
      && |r.doc.children| == |doc.children|
      && r.doc.children[pi] == doc.children[pi].(children := doc.children[pi].children + [XboxPlatform])
  {
    var prepared := Prepared(doc).value;
    var run := RunConfigurations(prepared, ConfigurationNames, lib, table, baseDirectory, fileExists, edits);
    assert run.Success?;
    PreparedKept(doc, prepared, run.value.doc);
  }

  /** What the configurations leave of a prepared document. */
  lemma {:induction false} PreparedKept(doc: Node, prepared: Node, after: Node)
    requires doc.tag == Root && Prepared(doc) == Success(prepared)
    requires after.attrs == prepared.attrs && |after.children| == |prepared.children|
    requires forall j :: 0 <= j < |prepared.children| && Untouched(prepared.children[j]) ==>
               after.children[j] == prepared.children[j]
    ensures forall other :: other !in SccAttributes ==> GetAttr(after.attrs, other) == GetAttr(doc.attrs, other)
    ensures UniqueNames(doc.attrs) ==> forall k :: 0 <= k < |SccAttributes| ==> GetAttr(after.attrs, SccAttributes[k]).None?
    ensures var pi := FirstTagged(doc.children, "Platforms").value;
      && |after.children| == |doc.children|
      && after.children[pi] == doc.children[pi].(children := doc.children[pi].children + [XboxPlatform])
  {
    var pi := FirstTagged(doc.children, "Platforms").value;
    assert prepared.children[pi].tag == "Platforms";
  }
}
