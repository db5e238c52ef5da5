/** The configuration rewrite and fabrication of ProcessProjectFileConfiguration
    (VSProjectFixer/Program.cs:307-463): the legacy `Xbox <c>|Win32`
    configuration is renamed and cleaned up, or, when the project has none, a
    fixed six-tool configuration is built for `<c>|Xbox`. */
module Configuration {
  import opened Results
  import opened Text
  import opened Xml
  import opened Platform

  /** Where both the output and the intermediate files of a configuration go. */
  const ObjectDirectory := "$(ProjectDir)_$(PlatformName)$(ConfigurationName)"

  /** Preprocessor symbols that have no place on the new platform. */
  const DroppedDefines: set<string> := {"X_DEBUG", "X_ASSERT", "$(USERNAME)"}

  /** The tools a rewritten configuration keeps; any other tool is removed. */
  const KeptTools: set<string> := {
    CompilerTool, "VCCustomBuildTool", "VCLibrarianTool", "VCPostBuildEventTool",
    "VCPreBuildEventTool", "VCPreLinkEventTool", "XboxDeploymentTool", "XboxImageTool"
  }

  /** Include directories every fabricated compiler tool starts with. */
  const TemplateIncludes := "$(X),$(X)\\..\\Support,$(X)\\Entropy,$(X)\\x_files,$(X)\\Auxiliary"

  /** The extra include directory a rewritten legacy compiler tool gets, per library. */
  function LegacyIncludeSuffix(lib: string): Option<string> {
    if lib == "Music_mgr" then Some(",$(X)\\Auxiliary")
    else if lib == "fx_RunTime" then Some(",$(X)\\..\\Support")
    else if lib == "Entropy" then Some(",$(X)\\Entropy\\Audio")
    else None
  }

  /** The extra include directory a fabricated compiler tool gets, per library. */
  function TemplateIncludeSuffix(lib: string): string {
    if lib == "UserInterface" || lib == "Gamelib" then ",$(X)\\..\\xCore\\3rdParty\\BinkXbox\\Include"
    else if lib == "Entropy" then ",$(X)\\Entropy\\Audio"
    else ""
  }

  // ---------------------------------------------------------------------------
  // Preprocessor definitions
  // ---------------------------------------------------------------------------

  /** The symbols of a `;`-separated definition list that survive: each once,
      in order of first appearance, without the dropped ones (Enumerable.Except). */
  function KeptDefines(pd: string): seq<string> {
    Except(Split(pd, ';'), DroppedDefines)
  }

  /** The symbol that tells the code which configuration it is built in. */
  function ConfigSymbol(c: string): string {
    ",CONFIG_" + Upper(c)
  }

  /** The new PreprocessorDefinitions value: the kept symbols joined with `,`,
      TARGET_XBOX_DEV renamed to TARGET_XBOX, and `,CONFIG_<C>` appended. */
  function RewriteDefines(pd: string, c: string): string {
    ReplaceAll(JoinAll(KeptDefines(pd), ','), "TARGET_XBOX_DEV", "TARGET_XBOX") + ConfigSymbol(c)
  }

  /** The rename works symbol by symbol: replacing in the joined list is the
      same as joining the replaced symbols, because no match can span a `,`. */
  lemma {:induction false} RewriteDefinesBySymbol(pd: string, c: string)
    ensures var kept := KeptDefines(pd);
      RewriteDefines(pd, c) ==
        (if |kept| == 0 then "" else Join(ReplaceEach(kept, "TARGET_XBOX_DEV", "TARGET_XBOX"), ','))
        + ConfigSymbol(c)
  {
    var kept := KeptDefines(pd);
    if |kept| > 0 {
      assert ',' !in "TARGET_XBOX_DEV";
      ReplaceInJoin(kept, ',', "TARGET_XBOX_DEV", "TARGET_XBOX");
    }
  }

  /** A definition list written as `;`-separated symbols: the symbols that
      survive are exactly those not dropped, each once, in order of first
      appearance; and the result always ends with the configuration's symbol. */
  lemma {:induction false} DefinesOfList(symbols: seq<string>, c: string)
    requires |symbols| > 0 && forall i :: 0 <= i < |symbols| ==> ';' !in symbols[i]
    ensures var kept := KeptDefines(Join(symbols, ';'));
      && (forall s :: s in kept <==> s in symbols && s !in DroppedDefines)
      && (forall i, j :: 0 <= i < j < |kept| ==> kept[i] != kept[j])
      && (forall i, j :: 0 <= i < j < |kept| ==> FirstIndex(symbols, kept[i]) < FirstIndex(symbols, kept[j]))
    ensures EndsWith(RewriteDefines(Join(symbols, ';'), c), ConfigSymbol(c))
  {
    SplitJoin(symbols, ';');
    var front := ReplaceAll(JoinAll(KeptDefines(Join(symbols, ';')), ','), "TARGET_XBOX_DEV", "TARGET_XBOX");
    assert RewriteDefines(Join(symbols, ';'), c) == front + ConfigSymbol(c);
  }

  // ---------------------------------------------------------------------------
  // Tools
  // ---------------------------------------------------------------------------

  /** Whether rewriting tool `t` gets through: it has a Name, and a compiler tool
      has the attributes the rewrite reads. */
  predicate ToolOk(t: Node, lib: string) {
    && NameOf(t).Some?
    && (NameOf(t) == Some(CompilerTool) ==>
          && GetAttr(t.attrs, "PreprocessorDefinitions").Some?
          && (LegacyIncludeSuffix(lib).Some? ==> GetAttr(t.attrs, "AdditionalIncludeDirectories").Some?))
  }

  /** One tool of the legacy configuration: the compiler gets new definitions
      (and, for some libraries, one more include directory), the librarian
      loses its OutputFile, the other allowed tools stay, the rest go. */
  function RewriteTool(t: Node, lib: string, c: string): (r: Result<Option<Node>>)
    ensures r.Success? <==> ToolOk(t, lib)
    ensures r.Failure? ==> r.fault == NullReference
    ensures r.Success? ==> (r.value.Some? <==> NameOf(t).value in KeptTools)
    ensures r.Success? && r.value.Some? ==>
      var u := r.value.value;
      && u.tag == t.tag && u.children == t.children && NameOf(u) == NameOf(t)
      && (NameOf(t) == Some(CompilerTool) ==>
            GetAttr(u.attrs, "PreprocessorDefinitions")
              == Some(RewriteDefines(GetAttr(t.attrs, "PreprocessorDefinitions").value, c))
            && (LegacyIncludeSuffix(lib).Some? ==>
                  GetAttr(u.attrs, "AdditionalIncludeDirectories")
                    == Some(GetAttr(t.attrs, "AdditionalIncludeDirectories").value + LegacyIncludeSuffix(lib).value)))
      && (NameOf(t) == Some(CompilerTool) ==>
            forall other :: other != "PreprocessorDefinitions" && other != "AdditionalIncludeDirectories" ==>
              GetAttr(u.attrs, other) == GetAttr(t.attrs, other))
      && (NameOf(t) == Some("VCLibrarianTool") && UniqueNames(t.attrs) ==> GetAttr(u.attrs, "OutputFile").None?)
      && (NameOf(t) == Some("VCLibrarianTool") ==>
            forall other :: other != "OutputFile" ==> GetAttr(u.attrs, other) == GetAttr(t.attrs, other))
      && (NameOf(t) != Some(CompilerTool) && NameOf(t) != Some("VCLibrarianTool") ==> u == t)
      && (UniqueNames(t.attrs) ==> UniqueNames(u.attrs))
  {
    var name :- Require(NameOf(t));
    if name == CompilerTool then
      var pd :- Require(GetAttr(t.attrs, "PreprocessorDefinitions"));
      var defined := CreateOrUpdateAttribute(t.attrs, "PreprocessorDefinitions", RewriteDefines(pd, c));
      match LegacyIncludeSuffix(lib)
      case None => Success(Some(t.(attrs := defined)))
      case Some(suffix) =>
        var dirs :- Require(GetAttr(defined, "AdditionalIncludeDirectories"));
        Success(Some(t.(attrs := CreateOrUpdateAttribute(defined, "AdditionalIncludeDirectories", dirs + suffix))))
    else if name == "VCLibrarianTool" then
      Success(Some(t.(attrs := RemoveAttributeIfFound(t.attrs, "OutputFile"))))
    else if name in KeptTools then Success(Some(t))
    else Success(None)
  }

  /** The tools of a configuration whose Name is allowed, in order: the
      reference for which tools survive the rewrite. */
  function AllowedTools(ts: seq<Node>): (r: seq<Node>)
    ensures forall t :: t in r <==> t in ts && NameOf(t).Some? && NameOf(t).value in KeptTools
  {
    if |ts| == 0 then []
    else (if NameOf(ts[0]).Some? && NameOf(ts[0]).value in KeptTools then [ts[0]] else []) + AllowedTools(ts[1..])
  }

  /** The loop over the tool children, then the removal of those marked. */
  function RewriteTools(ts: seq<Node>, lib: string, c: string): (r: Result<seq<Node>>)
    ensures r.Success? <==> forall i :: 0 <= i < |ts| ==> ToolOk(ts[i], lib)
    ensures r.Failure? ==> r.fault == NullReference
    ensures r.Success? ==>
      var kept := AllowedTools(ts);
      && |r.value| == |kept|
      && forall k :: 0 <= k < |kept| ==> RewriteTool(kept[k], lib, c) == Success(Some(r.value[k]))
    decreases |ts|
  {
    if |ts| == 0 then Success([])
    else
      assert forall i :: 1 <= i < |ts| ==> ts[i] == ts[1..][i - 1];
      var head :- RewriteTool(ts[0], lib, c);
      var rest :- RewriteTools(ts[1..], lib, c);
      assert RewritesOf(AllowedTools(ts[1..]), lib, c, rest);
      if head.Some? then
        KeptToolStep(ts, lib, c, head.value, rest);
        Success([head.value] + rest)
      else
        DroppedToolStep(ts, lib, c, rest);
        Success(rest)
  }

  /** The rewrites of the kept tools `kept`, one for one, are `r`. */
  ghost predicate RewritesOf(kept: seq<Node>, lib: string, c: string, r: seq<Node>) {
    |r| == |kept| && forall k :: 0 <= k < |kept| ==> RewriteTool(kept[k], lib, c) == Success(Some(r[k]))
  }

  /** The induction step of RewriteTools when the first tool is kept: its
      rewrite goes in front of the rewrites of the others. */
  lemma {:induction false} KeptToolStep(ts: seq<Node>, lib: string, c: string, u: Node, rest: seq<Node>)
    requires |ts| > 0 && RewriteTool(ts[0], lib, c) == Success(Some(u))
    requires RewritesOf(AllowedTools(ts[1..]), lib, c, rest)
    ensures RewritesOf(AllowedTools(ts), lib, c, [u] + rest)
  {
    var keptRest := AllowedTools(ts[1..]);
    var kept := AllowedTools(ts);
    assert kept == [ts[0]] + keptRest;
    var r := [u] + rest;
    forall k | 0 <= k < |kept| ensures RewriteTool(kept[k], lib, c) == Success(Some(r[k])) {
      if k > 0 {
        assert kept[k] == keptRest[k - 1] && r[k] == rest[k - 1];
      }
    }
  }

  /** The induction step of RewriteTools when the first tool is dropped. */
  lemma {:induction false} DroppedToolStep(ts: seq<Node>, lib: string, c: string, rest: seq<Node>)
    requires |ts| > 0 && RewriteTool(ts[0], lib, c) == Success(None)
    requires RewritesOf(AllowedTools(ts[1..]), lib, c, rest)
    ensures RewritesOf(AllowedTools(ts), lib, c, rest)
  {
    assert AllowedTools(ts) == [] + AllowedTools(ts[1..]);
  }

  // ---------------------------------------------------------------------------
  // Configurations
  // ---------------------------------------------------------------------------

  /** Whether rewriting the legacy configuration gets through. */
  predicate LegacyOk(conf: Node, lib: string) {
    && GetAttr(conf.attrs, "OutputDirectory").Some?
    && GetAttr(conf.attrs, "IntermediateDirectory").Some?
    && forall i :: 0 <= i < |conf.children| ==> ToolOk(conf.children[i], lib)
  }

  /** A configuration fit for the new platform: labelled `<c>|Xbox`, building
      into the per-platform directory, free of the MFC/ATL settings, with only
      allowed tools, a librarian without OutputFile, and compiler definitions
      that select the configuration. */
  ghost predicate IsXboxConfiguration(n: Node, c: string) {
    && UniqueNames(n.attrs)
    && NameOf(n) == Some(Label(c))
    && GetAttr(n.attrs, "OutputDirectory") == Some(ObjectDirectory)
    && GetAttr(n.attrs, "IntermediateDirectory") == Some(ObjectDirectory)
    && GetAttr(n.attrs, "UseOfMFC").None?
    && GetAttr(n.attrs, "ATLMinimizesCRunTimeLibraryUsage").None?
    && forall i :: 0 <= i < |n.children| ==>
         && NameOf(n.children[i]).Some? && NameOf(n.children[i]).value in KeptTools
         && UniqueNames(n.children[i].attrs)
         && (NameOf(n.children[i]) == Some("VCLibrarianTool") ==> GetAttr(n.children[i].attrs, "OutputFile").None?)
         && (NameOf(n.children[i]) == Some(CompilerTool) ==>
               GetAttr(n.children[i].attrs, "PreprocessorDefinitions").Some?
               && EndsWith(GetAttr(n.children[i].attrs, "PreprocessorDefinitions").value, ConfigSymbol(c)))
  }

  /** The attributes the legacy rewrite sets or removes. */
  predicate Edited(name: string) {
    name == "Name" || name == "OutputDirectory" || name == "IntermediateDirectory"
    || name == "UseOfMFC" || name == "ATLMinimizesCRunTimeLibraryUsage"
  }

  /** The attribute edits of the legacy configuration. */
  function RewriteLegacyAttrs(attrs: seq<Attr>, c: string): (r: seq<Attr>)
    ensures GetAttr(r, "OutputDirectory") == Some(ObjectDirectory)
    ensures GetAttr(r, "IntermediateDirectory") == Some(ObjectDirectory)
    ensures GetAttr(r, "Name") == Some(Label(c))
    ensures forall other :: !Edited(other) ==> GetAttr(r, other) == GetAttr(attrs, other)
    ensures UniqueNames(attrs) ==> UniqueNames(r) && GetAttr(r, "UseOfMFC").None?
                                   && GetAttr(r, "ATLMinimizesCRunTimeLibraryUsage").None?
  {
    var named := CreateOrUpdateAttribute(attrs, "Name", Label(c));
    var output := CreateOrUpdateAttribute(named, "OutputDirectory", ObjectDirectory);
    var intermediate := CreateOrUpdateAttribute(output, "IntermediateDirectory", ObjectDirectory);
    var noMfc := RemoveAttributeIfFound(intermediate, "UseOfMFC");
    var r := RemoveAttributeIfFound(noMfc, "ATLMinimizesCRunTimeLibraryUsage");
    assert GetAttr(r, "OutputDirectory") == GetAttr(intermediate, "OutputDirectory") == GetAttr(output, "OutputDirectory");
    assert GetAttr(r, "IntermediateDirectory") == GetAttr(intermediate, "IntermediateDirectory");
    assert GetAttr(r, "Name") == GetAttr(named, "Name");
    assert forall other :: !Edited(other) ==> GetAttr(r, other) == GetAttr(attrs, other) by {
      forall other | !Edited(other) ensures GetAttr(r, other) == GetAttr(attrs, other) {
        assert GetAttr(r, other) == GetAttr(noMfc, other) == GetAttr(intermediate, other);
        assert GetAttr(intermediate, other) == GetAttr(output, other) == GetAttr(named, other) == GetAttr(attrs, other);
      }
    }
    assert UniqueNames(attrs) ==> GetAttr(r, "UseOfMFC").None? by {
      if UniqueNames(attrs) {
        assert UniqueNames(intermediate);
        assert GetAttr(noMfc, "UseOfMFC").None?;
      }
    }
    r
  }

  /** The rewrite of the legacy configuration for `c` (lines 318-392). */
  function RewriteLegacy(conf: Node, lib: string, c: string): (r: Result<Node>)
    ensures r.Success? <==> LegacyOk(conf, lib)
    ensures r.Failure? ==> r.fault == NullReference
    ensures r.Success? ==> r.value.tag == conf.tag
    ensures r.Success? ==> RewriteTools(conf.children, lib, c) == Success(r.value.children)
    ensures r.Success? ==> r.value.attrs == RewriteLegacyAttrs(conf.attrs, c)
  {
    var _ :- Require(GetAttr(conf.attrs, "OutputDirectory"));
    var _ :- Require(GetAttr(conf.attrs, "IntermediateDirectory"));
    var tools :- RewriteTools(conf.children, lib, c);
    Success(conf.(attrs := RewriteLegacyAttrs(conf.attrs, c), children := tools))
  }

  /** A rewritten legacy configuration of a well-formed project is fit for the new platform. */
  lemma {:induction false} RewriteLegacyIsXbox(conf: Node, lib: string, c: string)
    requires WellFormed(conf) && RewriteLegacy(conf, lib, c).Success?
    ensures IsXboxConfiguration(RewriteLegacy(conf, lib, c).value, c)
  {
    var r := RewriteLegacy(conf, lib, c).value;
    var kept := AllowedTools(conf.children);
    forall k | 0 <= k < |r.children|
      ensures && NameOf(r.children[k]).Some? && NameOf(r.children[k]).value in KeptTools
              && UniqueNames(r.children[k].attrs)
              && (NameOf(r.children[k]) == Some("VCLibrarianTool") ==> GetAttr(r.children[k].attrs, "OutputFile").None?)
              && (NameOf(r.children[k]) == Some(CompilerTool) ==>
                    GetAttr(r.children[k].attrs, "PreprocessorDefinitions").Some?
                    && EndsWith(GetAttr(r.children[k].attrs, "PreprocessorDefinitions").value, ConfigSymbol(c)))
    {
      var t := kept[k];
      assert t in conf.children;
      assert RewriteTool(t, lib, c) == Success(Some(r.children[k]));
      if NameOf(t) == Some(CompilerTool) {
        RewriteEndsWithConfig(GetAttr(t.attrs, "PreprocessorDefinitions").value, c);
      }
    }
  }

  lemma {:induction false} RewriteEndsWithConfig(pd: string, c: string)
    ensures EndsWith(RewriteDefines(pd, c), ConfigSymbol(c))
  {
    var front := ReplaceAll(JoinAll(KeptDefines(pd), ','), "TARGET_XBOX_DEV", "TARGET_XBOX");
    assert RewriteDefines(pd, c) == front + ConfigSymbol(c);
  }

  /** The configuration built when the project has no legacy one (lines 395-461). */
  function Template(lib: string, c: string): Node {
    Node("Configuration", TemplateAttrs(c),
      [TemplateCompiler(lib, c), ToolNamed("VCCustomBuildTool"), ToolNamed("VCLibrarianTool"),
       ToolNamed("VCPostBuildEventTool"), ToolNamed("VCPreBuildEventTool"), ToolNamed("VCPreLinkEventTool")])
  }

  /** The attributes of the fabricated configuration: a static library (type 4). */
  function TemplateAttrs(c: string): seq<Attr> {
    [Attr("Name", Label(c)),
     Attr("OutputDirectory", ObjectDirectory),
     Attr("IntermediateDirectory", ObjectDirectory),
     Attr("ConfigurationType", "4")]
  }

  /** The compiler tool of the fabricated configuration. */
  function TemplateCompiler(lib: string, c: string): Node {
    Node("Tool", [
      Attr("Name", CompilerTool),
      Attr("AdditionalIncludeDirectories", TemplateIncludes + TemplateIncludeSuffix(lib)),
      Attr("PreprocessorDefinitions", "TARGET_XBOX" + ConfigSymbol(c))], [])
  }

  /** A tool element carrying only its Name. */
  lemma {:induction false} ToolNamedFacts(name: string)
    ensures UniqueNames(ToolNamed(name).attrs) && NameOf(ToolNamed(name)) == Some(name)
    ensures GetAttr(ToolNamed(name).attrs, "OutputFile").None?
    ensures GetAttr(ToolNamed(name).attrs, "PreprocessorDefinitions").None?
  {
    AttrIndexIs(ToolNamed(name).attrs, "Name", 0);
  }

  /** The fabricated compiler tool. */
  lemma {:induction false} TemplateCompilerFacts(lib: string, c: string)
    ensures var t := TemplateCompiler(lib, c);
      && UniqueNames(t.attrs) && NameOf(t) == Some(CompilerTool)
      && GetAttr(t.attrs, "PreprocessorDefinitions") == Some("TARGET_XBOX" + ConfigSymbol(c))
      && EndsWith("TARGET_XBOX" + ConfigSymbol(c), ConfigSymbol(c))
  {
    var t := TemplateCompiler(lib, c);
    AttrIndexIs(t.attrs, "Name", 0);
    AttrIndexIs(t.attrs, "PreprocessorDefinitions", 2);
    var defines := "TARGET_XBOX" + ConfigSymbol(c);
    assert defines[|defines| - |ConfigSymbol(c)|..] == ConfigSymbol(c);
  }

  /** The fabricated configuration is fit for the new platform too: a static
      library (type 4) whose six tools start with the compiler. */
  lemma {:induction false} TemplateIsXbox(lib: string, c: string)
    ensures IsXboxConfiguration(Template(lib, c), c)
    ensures GetAttr(Template(lib, c).attrs, "ConfigurationType") == Some("4")
    ensures |Template(lib, c).children| == 6 && NameOf(Template(lib, c).children[0]) == Some(CompilerTool)
    ensures GetAttr(Template(lib, c).children[0].attrs, "PreprocessorDefinitions") == Some("TARGET_XBOX" + ConfigSymbol(c))
  {
    TemplateAttrFacts(c);
    TemplateToolFacts(lib, c);
  }

  lemma {:induction false} TemplateAttrFacts(c: string)
    ensures var attrs := TemplateAttrs(c);
      && UniqueNames(attrs)
      && GetAttr(attrs, "Name") == Some(Label(c))
      && GetAttr(attrs, "OutputDirectory") == Some(ObjectDirectory)
      && GetAttr(attrs, "IntermediateDirectory") == Some(ObjectDirectory)
      && GetAttr(attrs, "ConfigurationType") == Some("4")
      && GetAttr(attrs, "UseOfMFC").None?
      && GetAttr(attrs, "ATLMinimizesCRunTimeLibraryUsage").None?
  {
    var attrs := TemplateAttrs(c);
    AttrIndexIs(attrs, "Name", 0);
    AttrIndexIs(attrs, "OutputDirectory", 1);
    AttrIndexIs(attrs, "IntermediateDirectory", 2);
    AttrIndexIs(attrs, "ConfigurationType", 3);
  }

  lemma {:induction false} TemplateToolFacts(lib: string, c: string)
    ensures var n := Template(lib, c);
      forall i :: 0 <= i < |n.children| ==>
         && NameOf(n.children[i]).Some? && NameOf(n.children[i]).value in KeptTools
         && UniqueNames(n.children[i].attrs)
         && (NameOf(n.children[i]) == Some("VCLibrarianTool") ==> GetAttr(n.children[i].attrs, "OutputFile").None?)
         && (NameOf(n.children[i]) == Some(CompilerTool) ==>
               GetAttr(n.children[i].attrs, "PreprocessorDefinitions").Some?
               && EndsWith(GetAttr(n.children[i].attrs, "PreprocessorDefinitions").value, ConfigSymbol(c)))
  {
    TemplateCompilerFacts(lib, c);
    ToolNamedFacts("VCCustomBuildTool");
    ToolNamedFacts("VCLibrarianTool");
    ToolNamedFacts("VCPostBuildEventTool");
    ToolNamedFacts("VCPreBuildEventTool");
    ToolNamedFacts("VCPreLinkEventTool");
  }

  /** One child of Configurations: it must have a Name, and is rewritten when
      that Name is the legacy label. */
  function FixConfiguration(conf: Node, lib: string, c: string): (r: Result<Node>)
    ensures r.Success? <==> NameOf(conf).Some? && (NameOf(conf) == Some(LegacyLabel(c)) ==> LegacyOk(conf, lib))
    ensures r.Failure? ==> r.fault == NullReference
    ensures r.Success? && NameOf(conf) == Some(LegacyLabel(c)) ==> RewriteLegacy(conf, lib, c) == r
    ensures r.Success? && NameOf(conf) != Some(LegacyLabel(c)) ==> r.value == conf
  {
    var name :- Require(NameOf(conf));
    if name == LegacyLabel(c) then RewriteLegacy(conf, lib, c) else Success(conf)
  }

  /** The loop over the Configurations children: every child is visited (there
      is no `break`), so every legacy one is rewritten and any child without a
      Name fails. */
  function FixConfigurations(cs: seq<Node>, lib: string, c: string): (r: Result<seq<Node>>)
    ensures r.Success? <==> forall i :: 0 <= i < |cs| ==> FixConfiguration(cs[i], lib, c).Success?
    ensures r.Failure? ==> r.fault == NullReference
    ensures r.Success? ==> |r.value| == |cs| && forall i {:trigger FixConfiguration(cs[i], lib, c)} :: 0 <= i < |cs| ==>
              FixConfiguration(cs[i], lib, c) == Success(r.value[i])
  {
    MapAll(conf => FixConfiguration(conf, lib, c), cs)
  }

  /** Step 2 for configuration `c` on the Configurations element: rewrite the
      legacy configurations, or append the template when there is none. */
  function ProcessConfigurations(configs: Node, lib: string, c: string): (r: Result<Node>)
    ensures r.Success? ==> r.value.tag == configs.tag && r.value.attrs == configs.attrs
    ensures r.Success? <==> FixConfigurations(configs.children, lib, c).Success?
    ensures r.Success? ==> |configs.children| <= |r.value.children|
    ensures r.Success? ==> forall i {:trigger FixConfiguration(configs.children[i], lib, c)} :: 0 <= i < |configs.children| ==>
              FixConfiguration(configs.children[i], lib, c) == Success(r.value.children[i])
    ensures r.Success? && FindChildByName(configs.children, LegacyLabel(c)).Some? ==>
              |r.value.children| == |configs.children|
    ensures r.Success? && FindChildByName(configs.children, LegacyLabel(c)).None? ==>
              |r.value.children| == |configs.children| + 1 && r.value.children[|configs.children|] == Template(lib, c)
  {
    var fixed :- FixConfigurations(configs.children, lib, c);
    if FindChildByName(configs.children, LegacyLabel(c)).Some? then Success(configs.(children := fixed))
    else Success(configs.(children := fixed + [Template(lib, c)]))
  }

  /** Step 2 keeps every configuration not labelled legacy where it was. */
  lemma {:induction false} ProcessConfigurationsKeeps(configs: Node, lib: string, c: string, i: nat)
    requires ProcessConfigurations(configs, lib, c).Success?
    requires i < |configs.children| && NameOf(configs.children[i]) != Some(LegacyLabel(c))
    ensures i < |ProcessConfigurations(configs, lib, c).value.children|
    ensures ProcessConfigurations(configs, lib, c).value.children[i] == configs.children[i]
  {
    assert FixConfiguration(configs.children[i], lib, c) == Success(ProcessConfigurations(configs, lib, c).value.children[i]);
  }

  /** So a configuration already fit for another configuration `d` is kept:
      its label is never the legacy one. */
  lemma {:induction false} ProcessConfigurationsKeepsOther(configs: Node, lib: string, c: string, d: string, i: nat)
    requires ProcessConfigurations(configs, lib, c).Success?
    requires i < |configs.children| && IsXboxConfiguration(configs.children[i], d)
    ensures i < |ProcessConfigurations(configs, lib, c).value.children|
    ensures IsXboxConfiguration(ProcessConfigurations(configs, lib, c).value.children[i], d)
  {
    LabelsDiffer(d, c);
    ProcessConfigurationsKeeps(configs, lib, c, i);
  }

  /** Without a legacy configuration, step 2 only appends the template. */
  lemma {:induction false} ProcessConfigurationsAppends(configs: Node, lib: string, c: string)
    requires ProcessConfigurations(configs, lib, c).Success?
    requires FindChildByName(configs.children, LegacyLabel(c)).None?
    ensures ProcessConfigurations(configs, lib, c).value.children == configs.children + [Template(lib, c)]
  {
    var r := ProcessConfigurations(configs, lib, c).value;
    forall i | 0 <= i < |configs.children| ensures r.children[i] == configs.children[i] {
      ProcessConfigurationsKeeps(configs, lib, c, i);
    }
  }

  /** After step 2 the configurations hold a `<c>|Xbox` configuration fit for
      the new platform, either rewritten or fabricated. */
  lemma {:induction false} ProcessConfigurationsProvides(configs: Node, lib: string, c: string)
    requires WellFormed(configs) && ProcessConfigurations(configs, lib, c).Success?
    ensures exists i :: 0 <= i < |ProcessConfigurations(configs, lib, c).value.children|
              && IsXboxConfiguration(ProcessConfigurations(configs, lib, c).value.children[i], c)
  {
    var r := ProcessConfigurations(configs, lib, c).value;
    match FindChildByName(configs.children, LegacyLabel(c))
    case Some(k) =>
      var conf := configs.children[k];
      assert conf in configs.children;
      assert FixConfiguration(conf, lib, c) == Success(r.children[k]);
      RewriteLegacyIsXbox(conf, lib, c);
      assert IsXboxConfiguration(r.children[k], c);
    case None =>
      TemplateIsXbox(lib, c);
      assert r.children[|configs.children|] == Template(lib, c);
  }

  /** A rewritten legacy configuration of a well-formed document is well formed. */
  lemma {:induction false} RewriteLegacyWellFormed(conf: Node, lib: string, c: string)
    requires WellFormed(conf) && RewriteLegacy(conf, lib, c).Success?
    ensures WellFormed(RewriteLegacy(conf, lib, c).value)
  {
    var r := RewriteLegacy(conf, lib, c).value;
    var kept := AllowedTools(conf.children);
    forall u | u in r.children ensures WellFormed(u) {
      var k :| 0 <= k < |r.children| && r.children[k] == u;
      assert kept[k] in kept;
      RewriteToolWellFormed(kept[k], lib, c, u);
    }
  }

  lemma {:induction false} RewriteToolWellFormed(t: Node, lib: string, c: string, u: Node)
    requires WellFormed(t) && RewriteTool(t, lib, c) == Success(Some(u))
    ensures WellFormed(u)
  {
    assert u.children == t.children;
  }

  lemma {:induction false} TemplateWellFormed(lib: string, c: string)
    ensures WellFormed(Template(lib, c))
  {
    TemplateAttrFacts(c);
    TemplateCompilerFacts(lib, c);
    ToolNamedFacts("VCCustomBuildTool");
    ToolNamedFacts("VCLibrarianTool");
    ToolNamedFacts("VCPostBuildEventTool");
    ToolNamedFacts("VCPreBuildEventTool");
    ToolNamedFacts("VCPreLinkEventTool");
  }

  /** Fixing one configuration of a well-formed document keeps it well formed. */
  lemma {:induction false} FixConfigurationWellFormed(conf: Node, lib: string, c: string)
    requires WellFormed(conf) && FixConfiguration(conf, lib, c).Success?
    ensures WellFormed(FixConfiguration(conf, lib, c).value)
  {
    if NameOf(conf) == Some(LegacyLabel(c)) {
      RewriteLegacyWellFormed(conf, lib, c);
    }
  }

  /** Step 2 keeps a well-formed Configurations element well formed. */
  lemma {:induction false} ProcessConfigurationsWellFormed(configs: Node, lib: string, c: string)
    requires WellFormed(configs) && ProcessConfigurations(configs, lib, c).Success?
    ensures WellFormed(ProcessConfigurations(configs, lib, c).value)
  {
    var r := ProcessConfigurations(configs, lib, c).value;
    forall i | 0 <= i < |r.children| ensures WellFormed(r.children[i]) {
      if i < |configs.children| {
        var conf := configs.children[i];
        assert conf in configs.children;
        assert FixConfiguration(conf, lib, c) == Success(r.children[i]);
        FixConfigurationWellFormed(conf, lib, c);
      } else {
        TemplateWellFormed(lib, c);
      }
    }
    WellFormedByIndex(r);
  }
}
