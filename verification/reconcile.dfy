/** The file inclusion reconciler, FixFilesChildNode
    (VSProjectFixer/Program.cs:42-143): a walk over the Files tree that decides,
    file by file, whether the file belongs in the build of one configuration,
    and records which required objects were found on disk. */
module Reconcile {
  import opened Results
  import opened Text
  import opened Xml
  import opened Platform

  /** What stays fixed during one walk: the configuration, the objects the
      library must contain, the project's directory and the file-exists oracle. */
  datatype Context = Context(c: string, required: set<string>, baseDirectory: string, fileExists: string -> bool)

  /** What the walk reports: required objects whose source file exists, and the
      full paths of required source files that do not (the MISSING FILE lines). */
  datatype Report = Report(found: set<string>, missing: seq<string>)

  datatype Outcome = Outcome(node: Node, report: Report)

  datatype Outcomes = Outcomes(nodes: seq<Node>, report: Report)

  /** The path the existence check looks at: `"{baseDirectory}\{relativePath}"`. */
  function FullPath(ctx: Context, rp: string): string {
    ctx.baseDirectory + "\\" + rp
  }

  function PathOf(f: Node): Option<string> {
    GetAttr(f.attrs, "RelativePath")
  }

  /** A file whose object the library needs. */
  predicate Included(f: Node, ctx: Context) {
    PathOf(f).Some? && ObjectName(PathOf(f).value) in ctx.required
  }

  /** A needed file that is on disk: its object counts as found. */
  predicate Counted(f: Node, ctx: Context) {
    Included(f, ctx) && ctx.fileExists(FullPath(ctx, PathOf(f).value))
  }

  /** A needed file that is not on disk. */
  predicate Absent(f: Node, ctx: Context) {
    Included(f, ctx) && !ctx.fileExists(FullPath(ctx, PathOf(f).value))
  }

  // ---------------------------------------------------------------------------
  // One file
  // ---------------------------------------------------------------------------

  /** The legacy configuration of a file renamed for the new platform, and its
      ExcludedFromBuild set to match the decision. */
  function RelabelLegacy(conf: Node, c: string, needed: bool): (r: Node)
    requires NameOf(conf).Some?
    ensures r.tag == conf.tag && r.children == conf.children
    ensures NameOf(r) == Some(Label(c))
    ensures !needed ==> IsExcluded(r)
    ensures needed && UniqueNames(conf.attrs) ==> GetAttr(r.attrs, "ExcludedFromBuild").None?
    ensures forall other :: other != "Name" && other != "ExcludedFromBuild" ==>
              GetAttr(r.attrs, other) == GetAttr(conf.attrs, other)
    ensures UniqueNames(conf.attrs) ==> UniqueNames(r.attrs)
  {
    var renamed := CreateOrUpdateAttribute(conf.attrs, "Name", Label(c));
    var attrs := if needed then RemoveAttributeIfFound(renamed, "ExcludedFromBuild")
                 else CreateOrUpdateAttribute(renamed, "ExcludedFromBuild", "TRUE");
    conf.(attrs := attrs)
  }

  /** The `case "File"` branch: decide inclusion, check the file exists, and
      relabel the legacy configuration or append a new one. The walk gets
      through the file exactly when FileOk holds; it then records the file's
      object or its missing path when the object is needed, and leaves the file
      reconciled. */
  function FixFile(f: Node, ctx: Context, acc: Report): (r: Result<Outcome>)
    requires f.tag == "File"
    ensures r.Success? <==> FileOk(f, ctx)
    ensures PathOf(f).None? ==> r == Failure(NullReference)
    ensures r.Success? ==>
      && FileReconciled(f, r.value.node, ctx)
      && r.value.report.found == acc.found + (if Counted(f, ctx) then {ObjectName(PathOf(f).value)} else {})
      && r.value.report.missing == acc.missing + (if Absent(f, ctx) then [FullPath(ctx, PathOf(f).value)] else [])
  {
    var rp :- Require(PathOf(f));
    var obj := ObjectName(rp);
    var needed := Included(f, ctx);
    var full := FullPath(ctx, rp);
    // a needed object is found when its file exists, and reported missing otherwise
    var report := Report(acc.found + (if Counted(f, ctx) then {obj} else {}),
                         acc.missing + (if Absent(f, ctx) then [full] else []));
    var legacy :- Lookup(f.children, "Name", LegacyLabel(ctx.c), None);
    match legacy
    case Some(i) =>
      var conf := f.children[i];
      if |conf.children| == 0 then Failure(NullReference)
      else if conf.children[0].tag != "Tool" then Failure(AssertionFailed)
      else
        var g := f.(children := f.children[i := RelabelLegacy(conf, ctx.c, needed)]);
        RelabelReconciled(f, ctx, i);
        Success(Outcome(g, report))
    case None =>
      var g := if IsHeader(rp) && needed then f
               else f.(children := f.children + [NewFileConfiguration(ctx.c, !needed)]);
      AppendReconciled(f, ctx);
      Success(Outcome(g, report))
  }

  lemma {:induction false} RelabelReconciled(f: Node, ctx: Context, i: nat)
    requires PathOf(f).Some?
    requires Lookup(f.children, "Name", LegacyLabel(ctx.c), None) == Success(Some(i))
    ensures i < |f.children| && NameOf(f.children[i]).Some?
    ensures FileReconciled(f, f.(children := f.children[i := RelabelLegacy(f.children[i], ctx.c, Included(f, ctx))]), ctx)
  {
  }

  lemma {:induction false} AppendReconciled(f: Node, ctx: Context)
    requires PathOf(f).Some?
    requires Lookup(f.children, "Name", LegacyLabel(ctx.c), None) == Success(None)
    ensures FileReconciled(f, if IsHeader(PathOf(f).value) && Included(f, ctx) then f
                              else f.(children := f.children + [NewFileConfiguration(ctx.c, !Included(f, ctx))]), ctx)
  {
  }

  /** Whether the walk gets through file `f`: it has a RelativePath, every child
      scanned for the legacy label has a Name, and a legacy configuration found
      starts with a Tool child (the Debug.Assert). */
  predicate FileOk(f: Node, ctx: Context) {
    && PathOf(f).Some?
    && match Lookup(f.children, "Name", LegacyLabel(ctx.c), None)
       case Failure(_) => false
       case Success(None) => true
       case Success(Some(i)) => |f.children[i].children| > 0 && f.children[i].children[0].tag == "Tool"
  }

  /** The state of a file after the walk, relative to its state before. Its
      legacy configuration, if it had one, now carries the new label and is
      excluded exactly when the object is not needed, its other attributes as
      they were; otherwise, unless it is a needed header, one new configuration
      with that decision was appended. */
  ghost predicate FileReconciled(before: Node, after: Node, ctx: Context) {
    && PathOf(before).Some?
    && after.tag == before.tag && after.attrs == before.attrs
    && var needed := Included(before, ctx);
       match Lookup(before.children, "Name", LegacyLabel(ctx.c), None)
       case Failure(_) => false
       case Success(Some(i)) =>
         && |after.children| == |before.children|
         && (forall j :: 0 <= j < |before.children| && j != i ==> after.children[j] == before.children[j])
         && after.children[i].tag == before.children[i].tag
         && after.children[i].children == before.children[i].children
         && NameOf(after.children[i]) == Some(Label(ctx.c))
         && (!needed ==> IsExcluded(after.children[i]))
         && (needed && UniqueNames(before.children[i].attrs) ==>
               GetAttr(after.children[i].attrs, "ExcludedFromBuild").None?)
         && (forall other :: other != "Name" && other != "ExcludedFromBuild" ==>
               GetAttr(after.children[i].attrs, other) == GetAttr(before.children[i].attrs, other))
       case Success(None) =>
         if IsHeader(PathOf(before).value) && needed then after == before
         else after.children == before.children + [NewFileConfiguration(ctx.c, !needed)]
  }

  // ---------------------------------------------------------------------------
  // The walk
  // ---------------------------------------------------------------------------

  /** FixFilesChildNode: Filters recurse into their children in order, Files
      are fixed, every other element is left alone. */
  function FixNode(n: Node, ctx: Context, acc: Report): Result<Outcome>
    decreases n, 1
  {
    if n.tag == "Filter" then
      var done :- FixChildren(n.children, ctx, acc);
      Success(Outcome(n.(children := done.nodes), done.report))
    else if n.tag == "File" then FixFile(n, ctx, acc)
    else Success(Outcome(n, acc))
  }

  /** The loop over a list of siblings, threading the report through. */
  function FixChildren(cs: seq<Node>, ctx: Context, acc: Report): Result<Outcomes>
    decreases cs, 0
  {
    if |cs| == 0 then Success(Outcomes([], acc))
    else
      var first :- FixNode(cs[0], ctx, acc);
      var rest :- FixChildren(cs[1..], ctx, first.report);
      Success(Outcomes([first.node] + rest.nodes, rest.report))
  }

  // ---------------------------------------------------------------------------
  // The files of a tree, and what they imply
  // ---------------------------------------------------------------------------

  /** The File elements the walk visits, in document order: those reachable
      through Filters only. */
  function FilesOf(n: Node): seq<Node>
    decreases n, 1
  {
    if n.tag == "Filter" then FilesIn(n.children)
    else if n.tag == "File" then [n]
    else []
  }

  function FilesIn(cs: seq<Node>): seq<Node>
    decreases cs, 0
  {
    if |cs| == 0 then [] else FilesOf(cs[0]) + FilesIn(cs[1..])
  }

  /** The objects of the needed files that exist. */
  ghost function FoundBy(files: seq<Node>, ctx: Context): set<string> {
    set i | 0 <= i < |files| && Counted(files[i], ctx) :: ObjectName(PathOf(files[i]).value)
  }

  /** The full paths of the needed files that do not exist, in order. */
  function MissingIn(files: seq<Node>, ctx: Context): seq<string> {
    if |files| == 0 then []
    else (if Absent(files[0], ctx) then [FullPath(ctx, PathOf(files[0]).value)] else []) + MissingIn(files[1..], ctx)
  }

  /** The walk gets through every one of these files. */
  predicate AllOk(files: seq<Node>, ctx: Context) {
    forall i :: 0 <= i < |files| ==> FileOk(files[i], ctx)
  }

  lemma {:induction false} FoundByAppend(a: seq<Node>, b: seq<Node>, ctx: Context)
    ensures FoundBy(a + b, ctx) == FoundBy(a, ctx) + FoundBy(b, ctx)
  {
    var ab := a + b;
    forall o | o in FoundBy(ab, ctx) ensures o in FoundBy(a, ctx) + FoundBy(b, ctx) {
      var i :| 0 <= i < |ab| && Counted(ab[i], ctx) && o == ObjectName(PathOf(ab[i]).value);
      if i >= |a| { assert ab[i] == b[i - |a|]; }
    }
    forall o | o in FoundBy(b, ctx) ensures o in FoundBy(ab, ctx) {
      var i :| 0 <= i < |b| && Counted(b[i], ctx) && o == ObjectName(PathOf(b[i]).value);
      assert ab[i + |a|] == b[i];
    }
    forall o | o in FoundBy(a, ctx) ensures o in FoundBy(ab, ctx) {
      var i :| 0 <= i < |a| && Counted(a[i], ctx) && o == ObjectName(PathOf(a[i]).value);
      assert ab[i] == a[i];
    }
  }

  lemma {:induction false} FoundBySingle(f: Node, ctx: Context)
    ensures FoundBy([f], ctx) == if Counted(f, ctx) then {ObjectName(PathOf(f).value)} else {}
  {
    assert [f][0] == f;
  }

  lemma {:induction false} MissingInAppend(a: seq<Node>, b: seq<Node>, ctx: Context)
    ensures MissingIn(a + b, ctx) == MissingIn(a, ctx) + MissingIn(b, ctx)
    decreases |a|
  {
    if |a| > 0 {
      var head := if Absent(a[0], ctx) then [FullPath(ctx, PathOf(a[0]).value)] else [];
      assert (a + b)[0] == a[0] && (a + b)[1..] == a[1..] + b;
      assert MissingIn(a + b, ctx) == head + MissingIn(a[1..] + b, ctx);
      MissingInAppend(a[1..], b, ctx);
      assert MissingIn(a, ctx) == head + MissingIn(a[1..], ctx);
    } else {
      assert a + b == b;
    }
  }

  lemma {:induction false} AllOkAppend(a: seq<Node>, b: seq<Node>, ctx: Context)
    ensures AllOk(a + b, ctx) <==> AllOk(a, ctx) && AllOk(b, ctx)
  {
    if AllOk(a, ctx) && AllOk(b, ctx) {
      forall i | 0 <= i < |a + b| ensures FileOk((a + b)[i], ctx) {
        if i >= |a| { assert (a + b)[i] == b[i - |a|]; }
      }
    }
    if AllOk(a + b, ctx) {
      forall i | 0 <= i < |b| ensures FileOk(b[i], ctx) {
        assert (a + b)[i + |a|] == b[i];
      }
      forall i | 0 <= i < |a| ensures FileOk(a[i], ctx) {
        assert (a + b)[i] == a[i];
      }
    }
  }

  /** Filters keep their attributes and recurse, Files are reconciled, and every
      other element is unchanged. */
  ghost predicate Reconciled(before: Node, after: Node, ctx: Context)
    decreases before
  {
    if before.tag == "Filter" then
      && after.tag == before.tag && after.attrs == before.attrs
      && |after.children| == |before.children|
      && forall i :: 0 <= i < |before.children| ==> Reconciled(before.children[i], after.children[i], ctx)
    else if before.tag == "File" then FileReconciled(before, after, ctx)
    else after == before
  }

  /** The walk below one node: it succeeds exactly when it gets through every
      file it visits; then every file is reconciled, the found set grows by the
      objects of the needed files that exist, and the missing list grows by the
      needed files that do not, in document order. */
  lemma {:induction false} FixNodeSpec(n: Node, ctx: Context, acc: Report)
    ensures FixNode(n, ctx, acc).Success? <==> AllOk(FilesOf(n), ctx)
    ensures FixNode(n, ctx, acc).Success? ==>
      var o := FixNode(n, ctx, acc).value;
      && Reconciled(n, o.node, ctx)
      && o.report.found == acc.found + FoundBy(FilesOf(n), ctx)
      && o.report.missing == acc.missing + MissingIn(FilesOf(n), ctx)
    decreases n, 1
  {
    if n.tag == "Filter" {
      FixChildrenSpec(n.children, ctx, acc);
    } else if n.tag == "File" {
      assert FilesOf(n) == [n];
      assert AllOk([n], ctx) <==> FileOk(n, ctx) by {
        assert [n][0] == n;
      }
      FoundBySingle(n, ctx);
    } else {
      assert FoundBy([], ctx) == {};
    }
  }

  lemma {:induction false} FixChildrenSpec(cs: seq<Node>, ctx: Context, acc: Report)
    ensures FixChildren(cs, ctx, acc).Success? <==> AllOk(FilesIn(cs), ctx)
    ensures FixChildren(cs, ctx, acc).Success? ==>
      var o := FixChildren(cs, ctx, acc).value;
      && |o.nodes| == |cs|
      && (forall i :: 0 <= i < |cs| ==> Reconciled(cs[i], o.nodes[i], ctx))
      && o.report.found == acc.found + FoundBy(FilesIn(cs), ctx)
      && o.report.missing == acc.missing + MissingIn(FilesIn(cs), ctx)
    decreases cs, 0
  {
    if |cs| == 0 {
      assert FoundBy([], ctx) == {};
    } else {
      FixNodeSpec(cs[0], ctx, acc);
      var first := FixNode(cs[0], ctx, acc);
      AllOkAppend(FilesOf(cs[0]), FilesIn(cs[1..]), ctx);
      if first.Success? {
        FixChildrenSpec(cs[1..], ctx, first.value.report);
        if FixChildren(cs[1..], ctx, first.value.report).Success? {
          SiblingsReconciled(cs, ctx, acc);
          SiblingsReport(cs, ctx, acc);
        }
      }
    }
  }

  /** The nodes of a successful sibling walk, given that its first step and the rest are reconciled. */
  lemma {:induction false} SiblingsReconciled(cs: seq<Node>, ctx: Context, acc: Report)
    requires |cs| > 0
    requires FixNode(cs[0], ctx, acc).Success?
    requires Reconciled(cs[0], FixNode(cs[0], ctx, acc).value.node, ctx)
    requires var rest := FixChildren(cs[1..], ctx, FixNode(cs[0], ctx, acc).value.report);
      && rest.Success? && |rest.value.nodes| == |cs| - 1
      && forall i :: 0 <= i < |cs| - 1 ==> Reconciled(cs[1..][i], rest.value.nodes[i], ctx)
    ensures var o := FixChildren(cs, ctx, acc).value;
      && |o.nodes| == |cs|
      && forall i :: 0 <= i < |cs| ==> Reconciled(cs[i], o.nodes[i], ctx)
  {
    var first := FixNode(cs[0], ctx, acc).value;
    var rest := FixChildren(cs[1..], ctx, first.report).value;
    var nodes := [first.node] + rest.nodes;
    assert FixChildren(cs, ctx, acc).value.nodes == nodes;
    forall i | 0 <= i < |cs| ensures Reconciled(cs[i], nodes[i], ctx) {
      if i > 0 {
        assert cs[i] == cs[1..][i - 1] && nodes[i] == rest.nodes[i - 1];
      }
    }
  }

  /** The report of a successful sibling walk, given the reports of its first step and the rest. */
  lemma {:induction false} SiblingsReport(cs: seq<Node>, ctx: Context, acc: Report)
    requires |cs| > 0
    requires FixNode(cs[0], ctx, acc).Success?
    requires var first := FixNode(cs[0], ctx, acc).value;
      && first.report.found == acc.found + FoundBy(FilesOf(cs[0]), ctx)
      && first.report.missing == acc.missing + MissingIn(FilesOf(cs[0]), ctx)
    requires var first := FixNode(cs[0], ctx, acc).value;
      var rest := FixChildren(cs[1..], ctx, first.report);
      && rest.Success?
      && rest.value.report.found == first.report.found + FoundBy(FilesIn(cs[1..]), ctx)
      && rest.value.report.missing == first.report.missing + MissingIn(FilesIn(cs[1..]), ctx)
    ensures var o := FixChildren(cs, ctx, acc).value;
      && o.report.found == acc.found + FoundBy(FilesIn(cs), ctx)
      && o.report.missing == acc.missing + MissingIn(FilesIn(cs), ctx)
  {
    var first := FixNode(cs[0], ctx, acc).value.report;
    var rest := FixChildren(cs[1..], ctx, first).value.report;
    assert FixChildren(cs, ctx, acc).value.report == rest;
    var a, b := FilesOf(cs[0]), FilesIn(cs[1..]);
    assert FilesIn(cs) == a + b;
    ReportsCompose(acc, first, rest, a, b, ctx);
  }

  lemma {:induction false} ReportsCompose(acc: Report, mid: Report, last: Report, a: seq<Node>, b: seq<Node>, ctx: Context)
    requires mid.found == acc.found + FoundBy(a, ctx) && mid.missing == acc.missing + MissingIn(a, ctx)
    requires last.found == mid.found + FoundBy(b, ctx) && last.missing == mid.missing + MissingIn(b, ctx)
    ensures last.found == acc.found + FoundBy(a + b, ctx)
    ensures last.missing == acc.missing + MissingIn(a + b, ctx)
  {
    FoundByAppend(a, b, ctx);
    MissingCompose(acc.missing, MissingIn(a, ctx), MissingIn(b, ctx), MissingIn(a + b, ctx), a, b, ctx);
  }

  lemma {:induction false} MissingCompose(acc: seq<string>, ma: seq<string>, mb: seq<string>, mab: seq<string>, a: seq<Node>, b: seq<Node>, ctx: Context)
    requires ma == MissingIn(a, ctx) && mb == MissingIn(b, ctx) && mab == MissingIn(a + b, ctx)
    ensures acc + mab == (acc + ma) + mb
  {
    MissingInAppend(a, b, ctx);
  }

  /** A file with no legacy configuration, every child of which has a Name,
      gets a configuration appended unless it is a needed header. */
  lemma {:induction false} NoLegacyAppends(g: Node, ctx: Context, acc: Report)
    requires g.tag == "File" && PathOf(g).Some?
    requires !(IsHeader(PathOf(g).value) && Included(g, ctx))
    requires forall j :: 0 <= j < |g.children| ==>
               NameOf(g.children[j]).Some? && NameOf(g.children[j]) != Some(LegacyLabel(ctx.c))
    ensures FixFile(g, ctx, acc).Success?
    ensures FixFile(g, ctx, acc).value.node.children
              == g.children + [NewFileConfiguration(ctx.c, !Included(g, ctx))]
  {
    assert Lookup(g.children, "Name", LegacyLabel(ctx.c), None) == Success(None);
  }

  /** The reconciler is not idempotent: a file whose only legacy configuration
      was relabelled on the first run has no legacy configuration on the second,
      so the second run appends another configuration with the same label. */
  lemma {:induction false} SecondRunAppends(f: Node, ctx: Context, acc: Report, acc2: Report, i: nat)
    requires f.tag == "File" && PathOf(f).Some?
    requires !(IsHeader(PathOf(f).value) && Included(f, ctx))
    requires i < |f.children| && NameOf(f.children[i]) == Some(LegacyLabel(ctx.c))
    requires |f.children[i].children| > 0 && f.children[i].children[0].tag == "Tool"
    requires forall j :: 0 <= j < |f.children| && j != i ==>
               NameOf(f.children[j]).Some? && NameOf(f.children[j]) != Some(LegacyLabel(ctx.c))
    ensures FixFile(f, ctx, acc).Success?
    ensures var once := FixFile(f, ctx, acc).value.node;
            var twice := FixFile(once, ctx, acc2);
            && twice.Success?
            && |twice.value.node.children| == |f.children| + 1
            && NameOf(twice.value.node.children[i]) == Some(Label(ctx.c))
            && NameOf(twice.value.node.children[|f.children|]) == Some(Label(ctx.c))
  {
    LookupIs(f.children, "Name", LegacyLabel(ctx.c), None, i);
    var needed := ObjectName(PathOf(f).value) in ctx.required;
    var relabelled := RelabelLegacy(f.children[i], ctx.c, needed);
    var once := FixFile(f, ctx, acc).value.node;
    assert once == f.(children := f.children[i := relabelled]);
    LabelsDiffer(ctx.c, ctx.c);
    NoLegacyAppends(once, ctx, acc2);
  }
}
