/** The Xbox naming conventions the fixer writes into a project: configuration
    labels, the object file a source file compiles to, and the per-file
    configuration element it fabricates. */
module Platform {
  import opened Results
  import opened Text
  import opened Xml

  /** The label of a configuration on the new platform, `"<c>|Xbox"`. */
  function Label(c: string): string {
    c + "|Xbox"
  }

  /** The label the legacy project used for the same configuration, `"Xbox <c>|Win32"`. */
  function LegacyLabel(c: string): string {
    "Xbox " + c + "|Win32"
  }

  /** A new label never looks like a legacy one, so a renamed node is never renamed again. */
  lemma {:induction false} LabelsDiffer(c: string, d: string)
    ensures Label(c) != LegacyLabel(d)
  {
    var a, b := Label(c), LegacyLabel(d);
    assert a[|a| - 1] == 'x';
    assert b[|b| - 1] == '2';
  }

  /** Labels of different configurations differ. */
  lemma {:induction false} LabelInjective(c: string, d: string)
    requires Label(c) == Label(d)
    ensures c == d
  {
    assert c == Label(c)[..|c|];
    assert d == Label(d)[..|d|];
  }

  /** The object file a source path compiles to: its file stem plus ".obj". */
  function ObjectName(path: string): string {
    FileStem(path) + ".obj"
  }

  predicate IsHeader(path: string) {
    EndsWith(path, ".hpp")
  }

  const CompilerTool := "VCCLCompilerTool"

  /** A `Tool` element carrying only its `Name`. */
  function ToolNamed(name: string): Node {
    Node("Tool", [Attr("Name", name)], [])
  }

  /** The element both the reconciler and the reference editor append to a file:
      `FileConfiguration` labelled for `c`, marked excluded on request, holding
      one compiler tool. */
  function NewFileConfiguration(c: string, excluded: bool): (n: Node)
    ensures n.tag == "FileConfiguration" && UniqueNames(n.attrs)
    ensures NameOf(n) == Some(Label(c))
    ensures IsExcluded(n) <==> excluded
    ensures GetAttr(n.attrs, "ExcludedFromBuild").None? <==> !excluded
    ensures n.children == [ToolNamed(CompilerTool)]
  {
    var name := [Attr("Name", Label(c))];
    if excluded then
      var n := Node("FileConfiguration", name + [Attr("ExcludedFromBuild", "TRUE")], []);
      assert GetAttr(n.attrs, "ExcludedFromBuild") == Some("TRUE") by { AttrIndexIs(n.attrs, "ExcludedFromBuild", 1); }
      n.(children := [ToolNamed(CompilerTool)])
    else
      Node("FileConfiguration", name, [ToolNamed(CompilerTool)])
  }

  /** A file configuration that keeps its file out of the build. */
  predicate IsExcluded(n: Node) {
    GetAttr(n.attrs, "ExcludedFromBuild") == Some("TRUE")
  }
}
