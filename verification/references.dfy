/** The reference editor: force one file into the build of a configuration
    (AddFileReference, VSProjectFixer/Program.cs:172-245) or out of it
    (ExcludeFileReference, VSProjectFixer/Program.cs:247-303), at a filter path
    below the project's Files element. */
module References {
  import opened Results
  import opened Text
  import opened Xml
  import opened Platform
  import opened Filters

  /** `<File RelativePath="path">`, as AddFileReference creates it. */
  function NewFile(path: string): (n: Node)
    ensures n.tag == "File" && GetAttr(n.attrs, "RelativePath") == Some(path) && n.children == []
    ensures WellFormed(n)
  {
    Node("File", [Attr("RelativePath", path)], [])
  }

  /** The `File` child a reference to `path` resolves to (File children without
      a RelativePath abort the search). */
  function FindFile(filter: Node, path: string): Result<Option<nat>> {
    Lookup(filter.children, "RelativePath", path, Some("File"))
  }

  /** The child of a file labelled for configuration `c` (every child scanned
      before it must carry a Name). */
  function FindConfiguration(file: Node, c: string): Result<Option<nat>> {
    Lookup(file.children, "Name", Label(c), None)
  }

  /** The state AddFileReference leaves a filter in: the file is there, and
      unless it is a header, its configuration for `c` is there and not excluded. */
  ghost predicate Referenced(filter: Node, path: string, c: string) {
    match FindFile(filter, path)
    case Success(Some(i)) =>
      IsHeader(path) ||
      (match FindConfiguration(filter.children[i], c)
       case Success(Some(j)) => GetAttr(filter.children[i].children[j].attrs, "ExcludedFromBuild").None?
       case _ => false)
    case _ => false
  }

  lemma {:induction false} WellFormedReplace(n: Node, i: nat, x: Node)
    requires WellFormed(n) && i < |n.children| && WellFormed(x)
    ensures WellFormed(n.(children := n.children[i := x]))
  {
    var r := n.(children := n.children[i := x]);
    forall c | c in r.children ensures WellFormed(c) {
      var j :| 0 <= j < |r.children| && r.children[j] == c;
      if j != i { assert c == n.children[j]; }
    }
  }

  lemma {:induction false} WellFormedAppend(n: Node, x: Node)
    requires WellFormed(n) && WellFormed(x)
    ensures WellFormed(n.(children := n.children + [x]))
  {
  }

  // ---------------------------------------------------------------------------
  // AddFileReference
  // ---------------------------------------------------------------------------

  /** `fileConfigNode.ChildNodes[0].Attributes.Append(ObjectFile)` when an
      alternate object name is given; a configuration without children throws. */
  function SetObjectFile(conf: Node, alt: Option<string>): (r: Result<Node>)
    ensures r.Success? <==> alt.None? || |conf.children| > 0
    ensures r.Failure? ==> r.fault == NullReference
    ensures r.Success? ==> r.value.tag == conf.tag && r.value.attrs == conf.attrs
                           && |r.value.children| == |conf.children|
                           && forall j :: 0 < j < |conf.children| ==> r.value.children[j] == conf.children[j]
    ensures alt.None? ==> r == Success(conf)
    ensures alt.Some? && r.Success? ==>
      var tool := r.value.children[0];
      && tool.tag == conf.children[0].tag && tool.children == conf.children[0].children
      && |tool.attrs| > 0 && tool.attrs[|tool.attrs| - 1] == Attr("ObjectFile", alt.value)
      && forall other :: other != "ObjectFile" ==> GetAttr(tool.attrs, other) == GetAttr(conf.children[0].attrs, other)
    ensures WellFormed(conf) && r.Success? ==> WellFormed(r.value)
  {
    match alt
    case None => Success(conf)
    case Some(obj) =>
      if |conf.children| == 0 then Failure(NullReference)
      else
        var tool := conf.children[0];
        var tool' := tool.(attrs := AppendAttribute(tool.attrs, "ObjectFile", obj));
        assert WellFormed(tool) ==> WellFormed(tool') by {
          assert forall c :: c in tool'.children ==> c in tool.children;
        }
        assert WellFormed(conf) ==> WellFormed(tool) by {
          assert tool in conf.children;
        }
        var r := conf.(children := conf.children[0 := tool']);
        assert WellFormed(conf) ==> WellFormed(r) by {
          if WellFormed(conf) { WellFormedReplace(conf, 0, tool'); }
        }
        Success(r)
  }

  /** The configuration half of AddFileReference for one non-header file: find
      or append its `<c>|Xbox` child, drop its ExcludedFromBuild attribute and
      set the alternate object name. */
  function ConfigureFile(file: Node, c: string, alt: Option<string>): (r: Result<Node>)
    ensures r.Failure? ==> r.fault == NullReference
    ensures FindConfiguration(file, c).Failure? ==> r.Failure?
    ensures r.Success? ==> r.value.tag == file.tag && r.value.attrs == file.attrs
    ensures r.Success? && FindConfiguration(file, c).Success? && FindConfiguration(file, c).value.Some? ==>
              |r.value.children| == |file.children|
    ensures r.Success? && FindConfiguration(file, c) == Success(None) ==>
              |r.value.children| == |file.children| + 1
    ensures WellFormed(file) && r.Success? ==>
      && WellFormed(r.value)
      && FindConfiguration(r.value, c).Success? && FindConfiguration(r.value, c).value.Some?
      && var j := FindConfiguration(r.value, c).value.value;
         GetAttr(r.value.children[j].attrs, "ExcludedFromBuild").None?
  {
    var found :- FindConfiguration(file, c);
    var withConf := if found.Some? then file else file.(children := file.children + [NewFileConfiguration(c, false)]);
    var j := if found.Some? then found.value else |file.children|;
    assert j < |withConf.children|;
    var conf := withConf.children[j];
    var kept := conf.(attrs := RemoveAttributeIfFound(conf.attrs, "ExcludedFromBuild"));
    var conf' :- SetObjectFile(kept, alt);
    var r := withConf.(children := withConf.children[j := conf']);
    assert WellFormed(file) ==> WellFormed(r) && FindConfiguration(r, c) == Success(Some(j))
                                && GetAttr(r.children[j].attrs, "ExcludedFromBuild").None? by {
      if WellFormed(file) {
        ConfiguredFileFacts(file, c, found, withConf, j, kept, conf');
      }
    }
    Success(r)
  }

  lemma {:induction false} ConfiguredFileFacts(file: Node, c: string, found: Option<nat>, withConf: Node, j: nat, kept: Node, conf': Node)
    requires WellFormed(file) && FindConfiguration(file, c) == Success(found)
    requires withConf == if found.Some? then file else file.(children := file.children + [NewFileConfiguration(c, false)])
    requires j == if found.Some? then found.value else |file.children|
    requires j < |withConf.children|
    requires kept == withConf.children[j].(attrs := RemoveAttributeIfFound(withConf.children[j].attrs, "ExcludedFromBuild"))
    requires conf'.tag == kept.tag && conf'.attrs == kept.attrs
    requires WellFormed(kept) ==> WellFormed(conf')
    ensures var r := withConf.(children := withConf.children[j := conf']);
      && WellFormed(r) && FindConfiguration(r, c) == Success(Some(j))
      && GetAttr(r.children[j].attrs, "ExcludedFromBuild").None?
  {
    var r := withConf.(children := withConf.children[j := conf']);
    var conf := withConf.children[j];
    WellFormedAppend(file, NewFileConfiguration(c, false));
    assert WellFormed(withConf);
    assert conf in withConf.children;
    assert UniqueNames(conf.attrs);
    assert WellFormed(kept) by {
      assert kept.children == conf.children;
    }
    WellFormedReplace(withConf, j, conf');
    assert NameOf(conf') == NameOf(conf);
    assert NameOf(conf) == Some(Label(c));
    assert forall m :: 0 <= m < j ==> r.children[m] == file.children[m];
    LookupIs(r.children, "Name", Label(c), None, j);
  }

  /** `after` is the file configuration `before` brought into the build: its
      ExcludedFromBuild attribute gone, every other attribute as it was, and,
      when an alternate object name is given, `ObjectFile` appended to its
      first tool; its other tools are kept. */
  ghost predicate Included(before: Node, after: Node, alt: Option<string>) {
    && after.tag == before.tag
    && (UniqueNames(before.attrs) ==> GetAttr(after.attrs, "ExcludedFromBuild").None?)
    && (forall other :: other != "ExcludedFromBuild" ==> GetAttr(after.attrs, other) == GetAttr(before.attrs, other))
    && |after.children| == |before.children|
    && (forall j :: 0 < j < |before.children| ==> after.children[j] == before.children[j])
    && (alt.None? ==> after.children == before.children)
    && (alt.Some? ==>
          && |before.children| > 0
          && var tool := after.children[0];
          && tool.tag == before.children[0].tag && tool.children == before.children[0].children
          && |tool.attrs| > 0 && tool.attrs[|tool.attrs| - 1] == Attr("ObjectFile", alt.value)
          && forall other :: other != "ObjectFile" ==> GetAttr(tool.attrs, other) == GetAttr(before.children[0].attrs, other))
  }

  /** ConfigureFile changes exactly one child of the file: its first `<c>|Xbox`
      configuration, or a new one (named, with a compiler tool, not excluded)
      appended when there is none. That child is brought into the build and
      every other child is kept. It fails exactly when the search fails, or
      when an alternate name meets a found configuration without tools. */
  lemma {:induction false} ConfigureFileIncludes(file: Node, c: string, alt: Option<string>)
    ensures ConfigureFile(file, c, alt).Success? <==>
      && FindConfiguration(file, c).Success?
      && (alt.Some? && FindConfiguration(file, c).value.Some? ==>
            |file.children[FindConfiguration(file, c).value.value].children| > 0)
    ensures ConfigureFile(file, c, alt).Success? ==>
      var r := ConfigureFile(file, c, alt).value;
      var found := FindConfiguration(file, c).value;
      var k := if found.Some? then found.value else |file.children|;
      && |r.children| == (if found.Some? then |file.children| else |file.children| + 1)
      && (forall m :: 0 <= m < |file.children| && m != k ==> r.children[m] == file.children[m])
      && Included(if found.Some? then file.children[k] else NewFileConfiguration(c, false), r.children[k], alt)
  {
    if FindConfiguration(file, c).Success? {
      var found := FindConfiguration(file, c).value;
      var withConf := if found.Some? then file else file.(children := file.children + [NewFileConfiguration(c, false)]);
      var k := if found.Some? then found.value else |file.children|;
      var conf := withConf.children[k];
      var kept := conf.(attrs := RemoveAttributeIfFound(conf.attrs, "ExcludedFromBuild"));
      assert |kept.children| == |conf.children|;
      if SetObjectFile(kept, alt).Success? {
        var conf' := SetObjectFile(kept, alt).value;
        var r := withConf.(children := withConf.children[k := conf']);
        assert ConfigureFile(file, c, alt) == Success(r);
        assert forall m :: 0 <= m < |file.children| && m != k ==> r.children[m] == withConf.children[m] == file.children[m];
        IncludedStep(conf, alt);
      }
    }
  }

  lemma {:induction false} IncludedStep(conf: Node, alt: Option<string>)
    requires SetObjectFile(conf.(attrs := RemoveAttributeIfFound(conf.attrs, "ExcludedFromBuild")), alt).Success?
    ensures Included(conf, SetObjectFile(conf.(attrs := RemoveAttributeIfFound(conf.attrs, "ExcludedFromBuild")), alt).value, alt)
  {
  }

  /** AddFileReference at the filter itself: find or append the File child, and
      unless the path is a header, configure it. */
  function AddToFilter(filter: Node, path: string, c: string, alt: Option<string>): (r: Result<Node>)
    ensures r.Failure? ==> r.fault == NullReference
    ensures FindFile(filter, path).Failure? ==> r.Failure?
    ensures r.Success? ==> r.value.tag == filter.tag && r.value.attrs == filter.attrs
    ensures r.Success? ==>
      var found := FindFile(filter, path).value;
      var i := if found.Some? then found.value else |filter.children|;
      && |r.value.children| == (if found.Some? then |filter.children| else |filter.children| + 1)
      && forall j :: 0 <= j < |filter.children| && j != i ==> r.value.children[j] == filter.children[j]
    ensures IsHeader(path) && FindFile(filter, path).Success? ==>
      r == Success(if FindFile(filter, path).value.Some? then filter
                   else filter.(children := filter.children + [NewFile(path)]))
  {
    var found :- FindFile(filter, path);
    var withFile := if found.Some? then filter else filter.(children := filter.children + [NewFile(path)]);
    var i := if found.Some? then found.value else |filter.children|;
    if IsHeader(path) then Success(withFile)
    else
      var file :- ConfigureFile(withFile.children[i], c, alt);
      Success(withFile.(children := withFile.children[i := file]))
  }

  /** For a source file, the File element AddToFilter changes, the one found or
      a new one appended, is what ConfigureFile makes of it, and AddToFilter
      fails exactly when ConfigureFile does. */
  lemma {:induction false} AddToFilterConfigures(filter: Node, path: string, c: string, alt: Option<string>)
    requires FindFile(filter, path).Success? && !IsHeader(path)
    ensures var found := FindFile(filter, path).value;
      var i := if found.Some? then found.value else |filter.children|;
      var file := if found.Some? then filter.children[i] else NewFile(path);
      && (AddToFilter(filter, path, c, alt).Success? <==> ConfigureFile(file, c, alt).Success?)
      && (AddToFilter(filter, path, c, alt).Success? ==>
            AddToFilter(filter, path, c, alt).value.children[i] == ConfigureFile(file, c, alt).value)
  {
  }

  /** After AddToFilter a well-formed filter is still well formed and
      references the file. */
  lemma {:induction false} AddToFilterReferenced(filter: Node, path: string, c: string, alt: Option<string>)
    requires WellFormed(filter) && AddToFilter(filter, path, c, alt).Success?
    ensures WellFormed(AddToFilter(filter, path, c, alt).value)
    ensures Referenced(AddToFilter(filter, path, c, alt).value, path, c)
  {
    var found := FindFile(filter, path).value;
    var withFile := if found.Some? then filter else filter.(children := filter.children + [NewFile(path)]);
    var i := if found.Some? then found.value else |filter.children|;
    WellFormedAppend(filter, NewFile(path));
    assert forall m :: 0 <= m < i ==> withFile.children[m] == filter.children[m];
    LookupIs(withFile.children, "RelativePath", path, Some("File"), i);
    if !IsHeader(path) {
      var file := ConfigureFile(withFile.children[i], c, alt).value;
      assert withFile.children[i] in withFile.children;
      AddedFileFacts(withFile, path, c, i, file);
    }
  }

  lemma {:induction false} AddedFileFacts(withFile: Node, path: string, c: string, i: nat, file: Node)
    requires WellFormed(withFile) && FindFile(withFile, path) == Success(Some(i))
    requires !IsHeader(path)
    requires file.tag == withFile.children[i].tag && file.attrs == withFile.children[i].attrs
    requires WellFormed(file)
    requires FindConfiguration(file, c).Success? && FindConfiguration(file, c).value.Some?
    requires GetAttr(file.children[FindConfiguration(file, c).value.value].attrs, "ExcludedFromBuild").None?
    ensures WellFormed(withFile.(children := withFile.children[i := file]))
    ensures Referenced(withFile.(children := withFile.children[i := file]), path, c)
  {
    var r := withFile.(children := withFile.children[i := file]);
    WellFormedReplace(withFile, i, file);
    assert forall m :: 0 <= m < i ==> r.children[m] == withFile.children[m];
    LookupIs(r.children, "RelativePath", path, Some("File"), i);
  }

  /** A filter already in the referenced state is left exactly as it is. */
  lemma {:induction false} AddToReferenced(filter: Node, path: string, c: string)
    requires Referenced(filter, path, c)
    ensures AddToFilter(filter, path, c, None) == Success(filter)
  {
    var i := FindFile(filter, path).value.value;
    if !IsHeader(path) {
      var file := filter.children[i];
      var j := FindConfiguration(file, c).value.value;
      var conf := file.children[j];
      assert conf.(attrs := RemoveAttributeIfFound(conf.attrs, "ExcludedFromBuild")) == conf;
      assert ConfigureFile(file, c, None) == Success(file.(children := file.children[j := conf]));
      assert file.children[j := conf] == file.children;
      assert filter.children[i := file] == filter.children;
    }
  }

  /** AddFileReference below `n`: walk the chain of names, creating missing
      filters on the way, then add the reference at its end. */
  function AddAt(n: Node, segs: seq<string>, path: string, c: string, alt: Option<string>): (r: Result<Node>)
    ensures r.Failure? ==> r.fault == NullReference
    ensures r.Success? ==> r.value.tag == n.tag && r.value.attrs == n.attrs
    ensures WellFormed(n) && r.Success? ==>
      WellFormed(r.value) && Reach(r.value, segs).Some? && Referenced(Reach(r.value, segs).value, path, c)
    decreases |segs|
  {
    if |segs| == 0 then
      assert WellFormed(n) && AddToFilter(n, path, c, alt).Success? ==>
               WellFormed(AddToFilter(n, path, c, alt).value) && Referenced(AddToFilter(n, path, c, alt).value, path, c) by {
        if WellFormed(n) && AddToFilter(n, path, c, alt).Success? {
          AddToFilterReferenced(n, path, c, alt);
        }
      }
      AddToFilter(n, path, c, alt)
    else
      var f := FindFilterNode(n, segs[0], true);
      var k := f.child.value;
      var child :- AddAt(f.parent.children[k], segs[1..], path, c, alt);
      var r := f.parent.(children := f.parent.children[k := child]);
      assert WellFormed(n) ==> WellFormed(r) && Reach(r, segs) == Reach(child, segs[1..]) by {
        if WellFormed(n) {
          WalkFacts(n, segs[0], child);
        }
      }
      Success(r)
  }

  lemma {:induction false} WalkFacts(n: Node, seg: string, child: Node)
    requires WellFormed(n)
    requires var f := FindFilterNode(n, seg, true);
             child.attrs == f.parent.children[f.child.value].attrs
             && (WellFormed(f.parent.children[f.child.value]) ==> WellFormed(child))
    ensures var f := FindFilterNode(n, seg, true);
            var r := f.parent.(children := f.parent.children[f.child.value := child]);
            WellFormed(f.parent) && WellFormed(f.parent.children[f.child.value])
            && WellFormed(r) && FindChildByName(r.children, seg) == Some(f.child.value)
  {
    var f := FindFilterNode(n, seg, true);
    var k := f.child.value;
    var r := f.parent.(children := f.parent.children[k := child]);
    if f.parent.children != n.children {
      WellFormedAppend(n, NewFilter(seg));
    }
    assert f.parent.children[k] in f.parent.children;
    WellFormedReplace(f.parent, k, child);
    assert forall j :: 0 <= j < k ==> r.children[j] == f.parent.children[j];
    FirstNamed(r.children, seg, k);
  }

  /** AddFileReference(filesNode, filterPath, filePath, configuration, altObjectFileName). */
  function AddFileReference(files: Node, filterPath: string, path: string, c: string, alt: Option<string>): (r: Result<Node>)
    ensures r.Failure? ==> r.fault == NullReference
    ensures r.Success? ==> r.value.tag == files.tag && r.value.attrs == files.attrs
    ensures WellFormed(files) && r.Success? ==>
      && WellFormed(r.value)
      && Reach(r.value, Segments(filterPath)).Some?
      && Referenced(Reach(r.value, Segments(filterPath)).value, path, c)
  {
    AddAt(files, Segments(filterPath), path, c, alt)
  }

  /** AddAt changes nothing off the chain: the result is the tree with the
      filter the chain leads to, created where missing, replaced by that
      filter with the reference added. */
  lemma {:induction false} AddAtGrafts(n: Node, segs: seq<string>, path: string, c: string, alt: Option<string>)
    ensures var x := AddToFilter(ReachOrNew(n, segs), path, c, alt);
      && (AddAt(n, segs, path, c, alt).Success? <==> x.Success?)
      && (x.Success? ==> AddAt(n, segs, path, c, alt).value == GraftAt(n, segs, x.value))
    decreases |segs|
  {
    if |segs| > 0 {
      var f := FindFilterNode(n, segs[0], true);
      var k := f.child.value;
      AddAtGrafts(f.parent.children[k], segs[1..], path, c, alt);
      var x := AddToFilter(ReachOrNew(n, segs), path, c, alt);
      if x.Success? {
        GraftStep(n, segs, x.value);
      } else {
        GraftStep(n, segs, n);
      }
    }
  }

  /** AddFileReference changes nothing off the filter path it walks. */
  lemma {:induction false} AddFileReferenceGrafts(files: Node, filterPath: string, path: string, c: string, alt: Option<string>)
    ensures var segs := Segments(filterPath);
      var x := AddToFilter(ReachOrNew(files, segs), path, c, alt);
      && (AddFileReference(files, filterPath, path, c, alt).Success? <==> x.Success?)
      && (x.Success? ==> AddFileReference(files, filterPath, path, c, alt).value == GraftAt(files, segs, x.value))
  {
    AddAtGrafts(files, Segments(filterPath), path, c, alt);
  }

  /** Adding the same reference twice (without an alternate object name) gives
      the same tree as adding it once. */
  lemma {:induction false} AddAtIdempotent(n: Node, segs: seq<string>, path: string, c: string)
    requires WellFormed(n)
    ensures var once := AddAt(n, segs, path, c, None);
            once.Success? ==> AddAt(once.value, segs, path, c, None) == once
    decreases |segs|
  {
    var once := AddAt(n, segs, path, c, None);
    if once.Success? {
      if |segs| == 0 {
        AddToReferenced(once.value, path, c);
      } else {
        var f := FindFilterNode(n, segs[0], true);
        var k := f.child.value;
        var child := AddAt(f.parent.children[k], segs[1..], path, c, None).value;
        WalkFacts(n, segs[0], child);
        AddAtIdempotent(f.parent.children[k], segs[1..], path, c);
        var r := once.value;
        assert FindFilterNode(r, segs[0], true) == Found(r, Some(k));
        assert r.children[k] == child;
        assert r.children[k := child] == r.children;
      }
    }
  }

  lemma {:induction false} AddFileReferenceIdempotent(files: Node, filterPath: string, path: string, c: string)
    requires WellFormed(files)
    ensures var once := AddFileReference(files, filterPath, path, c, None);
            once.Success? ==> AddFileReference(once.value, filterPath, path, c, None) == once
  {
    AddAtIdempotent(files, Segments(filterPath), path, c);
  }

  // ---------------------------------------------------------------------------
  // ExcludeFileReference
  // ---------------------------------------------------------------------------

  /** The file configuration `n` with ExcludedFromBuild="TRUE" set in place. */
  function MarkOne(n: Node): (r: Node)
    ensures r.tag == n.tag && r.children == n.children && IsExcluded(r)
    ensures forall other :: other != "ExcludedFromBuild" ==> GetAttr(r.attrs, other) == GetAttr(n.attrs, other)
    ensures UniqueNames(n.attrs) ==> UniqueNames(r.attrs)
  {
    n.(attrs := CreateOrUpdateAttribute(n.attrs, "ExcludedFromBuild", "TRUE"))
  }

  /** `after` is `before` marked excluded if it is labelled `name`, and `before` itself otherwise. */
  ghost predicate Marked(before: Node, after: Node, name: string) {
    && after.tag == before.tag && after.children == before.children
    && NameOf(after) == NameOf(before)
    && (NameOf(before) == Some(name) ==>
          && IsExcluded(after)
          && (UniqueNames(before.attrs) ==> UniqueNames(after.attrs))
          && forall other :: other != "ExcludedFromBuild" ==> GetAttr(after.attrs, other) == GetAttr(before.attrs, other))
    && (NameOf(before) != Some(name) ==> after == before)
  }

  /** The marking loop, which has no `break`: every child labelled `name` is
      marked excluded, and reading the Name of a child that has none throws,
      wherever that child is. */
  function MarkExcluded(cs: seq<Node>, name: string): (r: Result<seq<Node>>)
    ensures r.Success? <==> forall j :: 0 <= j < |cs| ==> NameOf(cs[j]).Some?
    ensures r.Failure? ==> r.fault == NullReference
    ensures r.Success? ==> |r.value| == |cs| && forall j :: 0 <= j < |cs| ==> Marked(cs[j], r.value[j], name)
    decreases |cs|
  {
    if |cs| == 0 then Success([])
    else if NameOf(cs[0]).None? then Failure(NullReference)
    else
      var rest :- MarkExcluded(cs[1..], name);
      var head := if NameOf(cs[0]) == Some(name) then MarkOne(cs[0]) else cs[0];
      assert Marked(cs[0], head, name);
      assert forall j :: 1 <= j < |cs| ==> cs[j] == cs[1..][j - 1];
      Success([head] + rest)
  }

  /** The part of ExcludeFileReference that edits the file it found: its
      `<c>|Xbox` children are all marked excluded, or one new excluded
      configuration is appended when there is none. Reading the Name of a
      configuration that has none throws. */
  function ExcludeInFile(file: Node, c: string): (r: Result<Node>)
    ensures r.Success? <==> forall j :: 0 <= j < |file.children| ==> NameOf(file.children[j]).Some?
    ensures r.Failure? ==> r.fault == NullReference
    ensures r.Success? ==>
      && r.value.tag == file.tag && r.value.attrs == file.attrs
      && |file.children| <= |r.value.children|
      && (forall j :: 0 <= j < |file.children| ==> Marked(file.children[j], r.value.children[j], Label(c)))
      && (forall j :: 0 <= j < |r.value.children| && NameOf(r.value.children[j]) == Some(Label(c)) ==>
            IsExcluded(r.value.children[j]))
      && (FindChildByName(file.children, Label(c)).Some? ==> |r.value.children| == |file.children|)
      && (FindChildByName(file.children, Label(c)).None? ==>
            r.value.children == file.children + [NewFileConfiguration(c, true)])
    ensures r.Success? ==> FilterCount(r.value) == FilterCount(file)
  {
    var marked :- MarkExcluded(file.children, Label(c));
    var configs := if FindChildByName(file.children, Label(c)).Some? then marked
                   else marked + [NewFileConfiguration(c, true)];
    assert FindChildByName(file.children, Label(c)).None? ==> configs == file.children + [NewFileConfiguration(c, true)] by {
      if FindChildByName(file.children, Label(c)).None? {
        assert marked == file.children;
      }
    }
    assert FilterCount(file.(children := configs)) == FilterCount(file) by {
      ExcludeKeepsFilters(file, marked, configs, c);
    }
    Success(file.(children := configs))
  }

  lemma {:induction false} ExcludeKeepsFilters(file: Node, marked: seq<Node>, configs: seq<Node>, c: string)
    requires |marked| == |file.children|
    requires forall j :: 0 <= j < |marked| ==>
               marked[j].tag == file.children[j].tag && marked[j].children == file.children[j].children
    requires configs == marked || configs == marked + [NewFileConfiguration(c, true)]
    ensures FilterCount(file.(children := configs)) == FilterCount(file)
  {
    FilterCountPointwise(marked, file.children);
    if configs != marked {
      FilterCountAppend(marked, NewFileConfiguration(c, true));
      var tool := ToolNamed(CompilerTool);
      assert FilterCountAll(tool.children) == 0;
      assert FilterCountAll([tool]) == FilterCount(tool) + FilterCountAll([tool][1..]);
    }
  }

  /** ExcludeFileReference at the filter itself. The file is the first child of
      ANY tag whose RelativePath is `path`; every child scanned before it must
      carry a RelativePath. A missing file fails the final Debug.Assert; the
      file found is edited by ExcludeInFile and every other child is kept. */
  function ExcludeInFilter(filter: Node, path: string, c: string): (r: Result<Node>)
    ensures Lookup(filter.children, "RelativePath", path, None).Failure? ==> r == Failure(NullReference)
    ensures Lookup(filter.children, "RelativePath", path, None) == Success(None) ==> r == Failure(AssertionFailed)
    ensures Lookup(filter.children, "RelativePath", path, None).Success? &&
            Lookup(filter.children, "RelativePath", path, None).value.Some? ==>
      var i := Lookup(filter.children, "RelativePath", path, None).value.value;
      var e := ExcludeInFile(filter.children[i], c);
      && (r.Failure? <==> e.Failure?)
      && (r.Failure? ==> r.fault == e.fault)
      && (r.Success? ==> r.value == filter.(children := filter.children[i := e.value]))
    ensures r.Success? ==> FilterCount(r.value) == FilterCount(filter)
  {
    var found :- Lookup(filter.children, "RelativePath", path, None);
    if found.None? then Failure(AssertionFailed)
    else
      var i := found.value;
      var file' :- ExcludeInFile(filter.children[i], c);
      FilterCountReplace(filter.children, i, file');
      Success(filter.(children := filter.children[i := file']))
  }

  /** ExcludeFileReference below `n`: walk the chain of names without creating
      anything; a missing name leaves a null filter, whose children are then read. */
  function ExcludeAt(n: Node, segs: seq<string>, path: string, c: string): (r: Result<Node>)
    ensures Reach(n, segs).None? ==> r == Failure(NullReference)
    ensures Reach(n, segs).Some? ==>
      var e := ExcludeInFilter(Reach(n, segs).value, path, c);
      && (r.Failure? <==> e.Failure?)
      && (r.Failure? ==> r.fault == e.fault)
      && (r.Success? ==> Reach(r.value, segs) == Some(e.value))
      && (r.Success? ==> r.value == GraftAt(n, segs, e.value))
    ensures r.Success? ==> r.value.tag == n.tag && r.value.attrs == n.attrs
    ensures r.Success? ==> FilterCount(r.value) == FilterCount(n)
  {
    var r := EditAt(n, segs, (m: Node) => ExcludeInFilter(m, path, c));
    if r.Success? then
      var e := ExcludeInFilter(Reach(n, segs).value, path, c).value;
      GraftAtReach(n, segs, e);
      GraftAtFilterCount(n, segs, e);
      r
    else r
  }

  /** ExcludeFileReference(filesNode, filterPath, filePath, configuration). */
  function ExcludeFileReference(files: Node, filterPath: string, path: string, c: string): (r: Result<Node>)
    ensures Reach(files, Segments(filterPath)).None? ==> r == Failure(NullReference)
    ensures Reach(files, Segments(filterPath)).Some? ==>
      var e := ExcludeInFilter(Reach(files, Segments(filterPath)).value, path, c);
      && (r.Failure? <==> e.Failure?)
      && (r.Failure? ==> r.fault == e.fault)
      && (r.Success? ==> Reach(r.value, Segments(filterPath)) == Some(e.value))
      && (r.Success? ==> r.value == GraftAt(files, Segments(filterPath), e.value))
    ensures r.Success? ==> r.value.tag == files.tag && r.value.attrs == files.attrs
    ensures r.Success? ==> FilterCount(r.value) == FilterCount(files)
  {
    ExcludeAt(files, Segments(filterPath), path, c)
  }

  /** The state ExcludeFileReference leaves a filter in: the file is there, it
      has a configuration labelled for `c`, and every such configuration is
      excluded from the build. */
  ghost predicate ExcludedFrom(filter: Node, path: string, c: string) {
    match Lookup(filter.children, "RelativePath", path, None)
    case Success(Some(i)) =>
      var confs := filter.children[i].children;
      && (exists j :: 0 <= j < |confs| && NameOf(confs[j]) == Some(Label(c)))
      && forall j :: 0 <= j < |confs| && NameOf(confs[j]) == Some(Label(c)) ==> IsExcluded(confs[j])
    case _ => false
  }

  /** After ExcludeInFilter the file is excluded for `c`. */
  lemma {:induction false} ExcludeInFilterExcludes(filter: Node, path: string, c: string)
    requires ExcludeInFilter(filter, path, c).Success?
    ensures ExcludedFrom(ExcludeInFilter(filter, path, c).value, path, c)
  {
    var r := ExcludeInFilter(filter, path, c).value;
    var i := Lookup(filter.children, "RelativePath", path, None).value.value;
    var file := filter.children[i];
    var file' := ExcludeInFile(file, c).value;
    assert r.children[i] == file';
    assert forall j :: 0 <= j < i ==> r.children[j] == filter.children[j];
    LookupIs(r.children, "RelativePath", path, None, i);
    match FindChildByName(file.children, Label(c))
    case Some(j) =>
      assert Marked(file.children[j], file'.children[j], Label(c));
    case None =>
      var j := |file.children|;
      assert file'.children[j] == NewFileConfiguration(c, true);
  }

  /** ExcludeInFile keeps attribute names unique. */
  lemma {:induction false} ExcludeInFileWellFormed(file: Node, c: string)
    requires WellFormed(file) && ExcludeInFile(file, c).Success?
    ensures WellFormed(ExcludeInFile(file, c).value)
  {
    var r := ExcludeInFile(file, c).value;
    forall j | 0 <= j < |r.children| ensures WellFormed(r.children[j]) {
      if j < |file.children| {
        assert file.children[j] in file.children;
        assert Marked(file.children[j], r.children[j], Label(c));
      } else {
        assert r.children[j] == NewFileConfiguration(c, true);
        assert WellFormed(ToolNamed(CompilerTool));
        WellFormedByIndex(r.children[j]);
      }
    }
    WellFormedByIndex(r);
  }

  /** ExcludeInFilter keeps attribute names unique. */
  lemma {:induction false} ExcludeInFilterWellFormed(filter: Node, path: string, c: string)
    requires WellFormed(filter) && ExcludeInFilter(filter, path, c).Success?
    ensures WellFormed(ExcludeInFilter(filter, path, c).value)
  {
    var i := Lookup(filter.children, "RelativePath", path, None).value.value;
    assert filter.children[i] in filter.children;
    ExcludeInFileWellFormed(filter.children[i], c);
    WellFormedReplace(filter, i, ExcludeInFile(filter.children[i], c).value);
  }

  /** Grafting a well-formed element into a well-formed tree keeps it well formed. */
  lemma {:induction false} GraftAtWellFormed(n: Node, segs: seq<string>, x: Node)
    requires WellFormed(n) && WellFormed(x)
    ensures WellFormed(GraftAt(n, segs, x))
    decreases |segs|
  {
    if |segs| > 0 {
      match FindChildByName(n.children, segs[0])
      case None =>
        GraftAtWellFormed(NewFilter(segs[0]), segs[1..], x);
        WellFormedAppend(n, GraftAt(NewFilter(segs[0]), segs[1..], x));
      case Some(k) =>
        assert n.children[k] in n.children;
        GraftAtWellFormed(n.children[k], segs[1..], x);
        WellFormedReplace(n, k, GraftAt(n.children[k], segs[1..], x));
    }
  }

  /** The element a chain of names reaches in a well-formed tree is well formed,
      and it is the one the chain leads to when missing names are created. */
  lemma {:induction false} ReachWellFormed(n: Node, segs: seq<string>)
    requires WellFormed(n) && Reach(n, segs).Some?
    ensures WellFormed(Reach(n, segs).value) && ReachOrNew(n, segs) == Reach(n, segs).value
    decreases |segs|
  {
    if |segs| > 0 {
      var k := FindChildByName(n.children, segs[0]).value;
      assert n.children[k] in n.children;
      ReachWellFormed(n.children[k], segs[1..]);
    }
  }

  /** ExcludeFileReference keeps attribute names unique. */
  lemma {:induction false} ExcludeFileReferenceWellFormed(files: Node, filterPath: string, path: string, c: string)
    requires WellFormed(files) && ExcludeFileReference(files, filterPath, path, c).Success?
    ensures WellFormed(ExcludeFileReference(files, filterPath, path, c).value)
  {
    var segs := Segments(filterPath);
    var filter := Reach(files, segs).value;
    ReachWellFormed(files, segs);
    ExcludeInFilterWellFormed(filter, path, c);
    GraftAtWellFormed(files, segs, ExcludeInFilter(filter, path, c).value);
  }
}
