# VSProjectFixer, modelled in Dafny

VSProjectFixer converts the Visual Studio 2003 library projects of a game so
that they build for the Xbox platform. It reads the linker map of the shipped
executable to learn which object files each static library really contributed.
It then rewrites each library project:

- it adds the `Xbox` platform;
- it turns the legacy `Xbox <c>|Win32` build configurations into `<c>|Xbox` ones, or builds them from a template;
- it includes or excludes every source file so that the library builds exactly the objects the executable needs;
- it adds or excludes a fixed list of extra files per library;
- it reports the required objects it could not find.

It also strips the source-control section from the solution file.

This project models that core as pure functions on an immutable XML tree and
proves what each step guarantees. One Dafny module follows each part of
`VSProjectFixer/Program.cs`:

| module | file | models |
|---|---|---|
| `Results` | results.dfy | exceptions as `Failure(NullReference / KeyNotFound / AssertionFailed)` |
| `Text` | text.dfy | the .NET string operations used: `Split` (with and without empty entries), `string.Join`, ordinal `Replace`, `Trim`, `StartsWith` and `EndsWith` (compared char by char), `ToUpper`, `Path.GetFileNameWithoutExtension`, `Enumerable.Except` |
| `Xml` | xml.dfy | elements as `Node(tag, attrs, children)`; `RemoveAttributeIfFound`, `CreateOrUpdateAttribute`, `XmlAttributeCollection.Append`, and the "first child whose attribute equals" scans |
| `Platform` | platform.dfy | configuration labels, object names, the appended `FileConfiguration` element |
| `MapFile` | mapfile.dfy | `BuildLibObjListFromMapFile` |
| `Filters` | filters.dfy | `FindFilterNode` and filter paths |
| `References` | references.dfy | `AddFileReference`, `ExcludeFileReference` |
| `Reconcile` | reconcile.dfy | `FixFilesChildNode` |
| `Configuration` | configuration.dfy | step 2 of `ProcessProjectFileConfiguration`: the configuration rewrite and the template |
| `Project` | project.dfy | the rest of `ProcessProjectFileConfiguration`, and the library branch of `ProcessProjectFile` |
| `Solution` | solution.dfy | `CleanSlnFile` |

Modelling decisions:

- **Exceptions.** Every place where the program throws becomes a `Failure`. This includes reading `.Value` of a missing attribute, a missing XPath node, a missing dictionary key, and a failing `Debug.Assert`. The model follows the Debug build, where `Debug.Assert` is checked.
- **Disk and console.** `File.Exists` is a function parameter. What the program prints is returned instead:
  - the MISSING FILE paths, in order;
  - the found objects;
  - the MISSING DEPENDENCY set.
- **XPath.** `SelectSingleNode("/VisualStudioProject/X")` is the first child tagged `X` of a document element tagged `VisualStudioProject`.
- **Duplicate attributes.** Attribute names are unique on every element of a parsed document (`Xml.WellFormed`). Properties that depend on it say so.

## Model

| member | source | states |
|---|---|---|
| Xml.RemoveAttributeIfFound | VSProjectFixer/Program.cs:12-22 | an absent attribute leaves the list as it is; otherwise exactly one entry, the first with that name, is removed; every other name reads as before; on a list with unique names the attribute is gone afterwards and the names stay unique |
| Xml.CreateOrUpdateAttribute | VSProjectFixer/Program.cs:24-40 | afterwards the attribute reads the new value; an existing one is updated in place, otherwise one is appended at the end; every other name reads as before; unique names stay unique |
| Xml.AppendAttribute | VSProjectFixer/Program.cs:240-243 | `Attributes.Append` of a new attribute: the attribute ends up last, and the list before it is the old one with that name removed; other names read as before; with unique names it reads the new value |
| Xml.AppendAttributeIdempotent | VSProjectFixer/Program.cs:240-243 | appending the same attribute twice gives the same list as appending it once |
| Xml.Lookup | VSProjectFixer/Program.cs:79-82 | the strict search loop: it finds the first examined child whose key attribute has the value; it finds nothing only when every examined child has the key with another value; it throws exactly when an examined child before any match lacks the key |
| Text.SplitJoin | VSProjectFixer/Program.cs:346 | splitting a list joined with a separator that no part contains gives back the parts |
| Text.Except | VSProjectFixer/Program.cs:346 | `Enumerable.Except`: the result holds exactly the elements not removed, each once, in order of first appearance |
| Text.ReplaceAbsent | VSProjectFixer/Program.cs:348 | replacing a pattern that does not occur changes nothing |
| Text.ReplaceInJoin | VSProjectFixer/Program.cs:348 | replacing a pattern without the separator in a joined list equals joining the replaced parts |
| Platform.NewFileConfiguration | VSProjectFixer/Program.cs:116-132 | the appended element is a `FileConfiguration` labelled `<c>\|Xbox`, holds one `VCCLCompilerTool` tool, and is excluded from the build exactly when asked to be |
| Platform.LabelsDiffer | VSProjectFixer/Program.cs:82-85 | a new label `<c>\|Xbox` never equals a legacy label `Xbox <d>\|Win32`, so a renamed configuration is never taken for a legacy one |
| MapFile.HeaderIndex | VSProjectFixer/Program.cs:1100 | the position of the first line that starts with the header |
| MapFile.BuildLibObjList | VSProjectFixer/Program.cs:1091-1134 | the map is read exactly when some line starts with the header (otherwise reading runs past the end); the table always holds `A51` |
| MapFile.TableContents | VSProjectFixer/Program.cs:1103-1130 | after the header, a library is a key exactly when it is `A51` or some record line names it; an object is in a library's set exactly when some record line files it there |
| MapFile.LibraryRecord | VSProjectFixer/Program.cs:1107-1128 | a record of four or more fields ending in `lib:obj[:more]` files `obj` under `lib`; parts after the second are ignored |
| MapFile.MainRecord | VSProjectFixer/Program.cs:1116-1120 | a record whose last field has no `:` files that field under the main project |
| MapFile.LibraryField | VSProjectFixer/Program.cs:1112-1128 | the last field `lib:obj:...` gives library `lib` and object `obj`, even when `lib` is `<absolute>` |
| MapFile.AbsoluteRecordSkipped | VSProjectFixer/Program.cs:1111-1113 | a record of four or more fields whose last field is exactly `<absolute>` contributes nothing |
| MapFile.ShortLineSkipped | VSProjectFixer/Program.cs:1107-1109 | a line with fewer than four space-separated fields contributes nothing |
| MapFile.TabSeparatedLineSkipped | VSProjectFixer/Program.cs:1107 | fields separated by tabs only form one field, so such a line contributes nothing |
| Filters.SegmentsOfJoin | VSProjectFixer/Program.cs:174-175 | a filter path written with backslashes splits back into its names |
| Filters.GraftStep | VSProjectFixer/Program.cs:177-181 | one level of the creating walk: it descends into the first child with the name, or into a new filter appended last, and writing the edited child back changes only that child |
| Filters.GraftAtFrame | VSProjectFixer/Program.cs:177-182 | an edit at the end of a filter path leaves the element itself and every child off the path unchanged, and adds at most one child |
| Filters.EditAt | VSProjectFixer/Program.cs:253-257 | the walk that creates nothing: a missing name throws; otherwise the edit's outcome, with the edited element put back at the end of the path and nothing else changed |
| Filters.FindFilterNode | VSProjectFixer/Program.cs:145-170 | finds the first child whose Name equals the path; otherwise it creates exactly one `Filter` child with that Name and an empty Filter attribute, or finds nothing and changes nothing when not asked to create |
| Filters.FindFilterNodeStable | VSProjectFixer/Program.cs:145-170 | searching again for what was just found or created finds the same child and changes nothing |
| References.SetObjectFile | VSProjectFixer/Program.cs:237-244 | an alternate object name is appended as `ObjectFile` to the configuration's first tool; it throws when the configuration has no child |
| References.ConfigureFile | VSProjectFixer/Program.cs:210-241 | the file's `<c>\|Xbox` configuration is found or appended, and loses ExcludedFromBuild |
| References.ConfigureFileIncludes | VSProjectFixer/Program.cs:210-244 | only the first `<c>\|Xbox` configuration changes, or, when there is none, a new one (named, one VCCLCompilerTool, not excluded) is appended; every other child is kept; the changed configuration loses ExcludedFromBuild, keeps its other attributes, and with an alternate name its first tool ends with `ObjectFile`; it fails exactly when a configuration lacks Name or an alternate name meets a configuration without tools |
| References.AddToFilter | VSProjectFixer/Program.cs:183-241 | within the filter, only the first matching File child changes, or one is appended and nothing else changes; a header gets only the file |
| References.AddToFilterConfigures | VSProjectFixer/Program.cs:183-244 | for a source file, the changed File child is ConfigureFile's result on the found (or newly created) File, and AddToFilter fails exactly when that does |
| References.AddToFilterReferenced | VSProjectFixer/Program.cs:183-241 | a well-formed filter stays well formed, and afterwards it references the file |
| References.AddFileReference | VSProjectFixer/Program.cs:172-245 | afterwards the filter chain exists and its filter references the file: the File exists, and for a non-header file a `<c>\|Xbox` configuration exists that is not excluded; the tree stays well formed |
| References.AddFileReferenceGrafts | VSProjectFixer/Program.cs:172-245 | nothing off the filter path changes: the result is the old tree with the filter at the end of the path, created where missing, replaced by that filter with the reference added |
| References.AddAtGrafts | VSProjectFixer/Program.cs:177-245 | the same at every depth of the walk |
| References.AddFileReferenceIdempotent | VSProjectFixer/Program.cs:172-245 | adding the same reference twice, with no alternate object name, gives the same tree as adding it once |
| References.MarkExcluded | VSProjectFixer/Program.cs:264-277 | the inner loop has no break: it gets through exactly when every child has a Name, and then every `<c>\|Xbox` child is excluded and every other child is unchanged |
| References.ExcludeInFile | VSProjectFixer/Program.cs:266-297 | it throws exactly when some configuration of the file has no Name; otherwise every `<c>\|Xbox` configuration is excluded and every other one is unchanged, or, when there is none, exactly one new excluded configuration is appended |
| References.ExcludeInFilter | VSProjectFixer/Program.cs:259-302 | a missing file fails the assertion, and a child without RelativePath before it throws; otherwise only the first matching file changes, and it changes as for a single file |
| References.ExcludeAt | VSProjectFixer/Program.cs:250-302 | a filter path that does not lead to a filter throws; otherwise only the filter it reaches changes (the result is the old tree with that filter replaced), and no Filter element is added or removed |
| References.ExcludeFileReference | VSProjectFixer/Program.cs:247-302 | a missing filter throws; otherwise the result is the old tree with the filter the path reaches replaced by its exclusion, and nothing else changed; no Filter element is ever created |
| References.ExcludeInFilterExcludes | VSProjectFixer/Program.cs:259-302 | afterwards the file is in the filter, has a `<c>\|Xbox` configuration, and every such configuration is excluded |
| References.ExcludeFileReferenceWellFormed | VSProjectFixer/Program.cs:247-302 | excluding keeps attribute names unique |
| Reconcile.RelabelLegacy | VSProjectFixer/Program.cs:84-107 | the legacy configuration gets the new label; it is excluded when not needed and has no ExcludedFromBuild when needed; its other attributes and its children are unchanged |
| Reconcile.FixFile | VSProjectFixer/Program.cs:54-140 | it gets through exactly when the file has a RelativePath, every child before the legacy one has a Name, and the legacy one starts with a Tool; the object counts as found exactly when needed and on disk; the full path is reported missing exactly when needed and absent; the file is reconciled: the relabelled legacy configuration keeps its children and every attribute other than Name and ExcludedFromBuild, and every other child is unchanged |
| Reconcile.FixNodeSpec | VSProjectFixer/Program.cs:42-142 | over a whole subtree: Filters recurse and other tags stay as they are; it succeeds exactly when every file below succeeds; the found set gains exactly the found objects of the files below, and the missing paths come in tree order |
| Reconcile.FixChildrenSpec | VSProjectFixer/Program.cs:49-52 | the same for a list of siblings processed in order |
| Reconcile.NoLegacyAppends | VSProjectFixer/Program.cs:112-134 | a file without a legacy configuration, other than a needed header, gets exactly one new configuration appended |
| Reconcile.SecondRunAppends | VSProjectFixer/Program.cs:79-134 | the reconciler is not idempotent: run again on its own output, it appends a second `<c>\|Xbox` configuration next to the renamed one |
| Configuration.RewriteDefinesBySymbol | VSProjectFixer/Program.cs:344-350 | the new PreprocessorDefinitions is the kept symbols, each renamed on its own and joined with `,`, followed by `,CONFIG_<C>` |
| Configuration.DefinesOfList | VSProjectFixer/Program.cs:344-350 | for a `;`-separated list the kept symbols are exactly those not dropped, each once, in order of first appearance; the value ends with `,CONFIG_<C>` |
| Configuration.RewriteTool | VSProjectFixer/Program.cs:336-390 | a tool without a Name, or a compiler without the attributes it reads, throws; the tool survives exactly when its name is allowed; the compiler gets the new definitions (and the extra include for some libraries); the librarian loses OutputFile; every other attribute of the compiler and of the librarian reads as before; other allowed tools are unchanged |
| Configuration.AllowedTools | VSProjectFixer/Program.cs:366-391 | the tools that survive are exactly those whose Name is in the eight-name allow-list |
| Configuration.RewriteTools | VSProjectFixer/Program.cs:333-392 | it succeeds exactly when every tool can be rewritten; the surviving tools are the allowed ones in their original order, each rewritten |
| Configuration.RewriteLegacyAttrs | VSProjectFixer/Program.cs:320-330 | the label and both directories are set, the MFC and ATL settings are gone, and every other attribute is unchanged |
| Configuration.RewriteLegacy | VSProjectFixer/Program.cs:318-392 | it throws exactly when a directory attribute or a tool attribute is missing; otherwise it applies the attribute and tool rewrites |
| Configuration.RewriteLegacyIsXbox | VSProjectFixer/Program.cs:318-392 | a rewritten legacy configuration is fit for the new platform: right label and directories, no MFC/ATL settings, only allowed tools, a librarian without OutputFile, definitions ending in `,CONFIG_<C>` |
| Configuration.TemplateIsXbox | VSProjectFixer/Program.cs:398-462 | the fabricated configuration is fit for the new platform too; it is a static library (type 4) with six tools, the compiler first |
| Configuration.FixConfigurations | VSProjectFixer/Program.cs:311-393 | the loop has no break: every child needs a Name, and every legacy child is rewritten while the others are kept |
| Configuration.ProcessConfigurations | VSProjectFixer/Program.cs:309-463 | it succeeds exactly when the loop does; every existing configuration keeps its position and is fixed as in the loop; when a legacy configuration exists nothing is added, and otherwise the template is appended last |
| Configuration.ProcessConfigurationsKeeps | VSProjectFixer/Program.cs:311-393 | a configuration not labelled legacy is left as it is |
| Configuration.ProcessConfigurationsKeepsOther | VSProjectFixer/Program.cs:309-463 | a configuration already fit for another configuration name stays fit |
| Configuration.ProcessConfigurationsAppends | VSProjectFixer/Program.cs:395-462 | without a legacy configuration the result is the old list with the template after it |
| Configuration.ProcessConfigurationsProvides | VSProjectFixer/Program.cs:309-463 | afterwards the configurations hold a `<c>\|Xbox` configuration fit for the new platform |
| Configuration.ProcessConfigurationsWellFormed | VSProjectFixer/Program.cs:309-463 | the rewrite keeps attribute names unique |
| Configuration.FixConfigurationWellFormed | VSProjectFixer/Program.cs:311-393 | fixing one configuration keeps attribute names unique |
| Project.Section | VSProjectFixer/Program.cs:475 | the first child with the tag, or a throw when there is none |
| Project.ReferencedObjectsMembers | VSProjectFixer/Program.cs:480-486 | an object is referenced exactly when some reference edit names a file with that object name |
| Project.ApplyEdits | VSProjectFixer/Program.cs:478-485 | the found set gains exactly one object per referenced path, headers included; the Files element keeps its tag and attributes; failures are throws or the missing-file assertion |
| Project.ApplyEditsAppend | VSProjectFixer/Program.cs:478-485 | the edits are applied in order: a list followed by another is the first applied and then the second, and a throw ends the run |
| Project.ApplyEditsWellFormed | VSProjectFixer/Program.cs:478-485 | the edits keep attribute names unique |
| Project.ApplyEditsLastHolds | VSProjectFixer/Program.cs:478-485 | after the last edit its filter exists and references the file, or excludes it, for the configuration |
| Project.ConvertFiles | VSProjectFixer/Program.cs:473-486 | step 3 plus the edits: found is the objects of the needed files on disk plus the referenced objects; missing is the needed files not on disk |
| Project.ConvertFilesWalks | VSProjectFixer/Program.cs:473-485 | the edits are applied to the Files element after the walk, in which every child is reconciled |
| Project.ProcessConfiguration | VSProjectFixer/Program.cs:305-472 | a missing Configurations element throws; a library absent from the table fails with KeyNotFound; otherwise only the Configurations and Files elements change, and Configurations is step 2's result |
| Project.ProcessConfigurationFiles | VSProjectFixer/Program.cs:465-958 | the new Files element is the result of step 3 and the edit list on the old one, and the reports are those of that conversion |
| Project.ProcessConfigurationReport | VSProjectFixer/Program.cs:951-958 | a required object is reported missing exactly when no needed file on disk and no reference edit provides it |
| Project.ProcessConfigurationProvides | VSProjectFixer/Program.cs:305-463 | processing `c` provides a `<c>\|Xbox` configuration and keeps every one already provided for another configuration |
| Project.RunConfigurations | VSProjectFixer/Program.cs:1079-1083 | after the configurations run in turn, every one of them is provided, and sections other than Configurations and Files are unchanged |
| Project.RunConfigurationsSteps | VSProjectFixer/Program.cs:1079-1083 | the k-th report is configuration k processed on the document the step before left (the first on the given document), and the run ends with the last step's document |
| Project.RemoveAll | VSProjectFixer/Program.cs:967-974 | the named attributes are gone (on unique names) and all others read as before |
| Project.WithPlatform | VSProjectFixer/Program.cs:1072-1077 | `Platform Name="Xbox"` is appended to the first Platforms element and nothing else changes; without one it throws |
| Project.Prepared | VSProjectFixer/Program.cs:967-974 | before the configurations run, the source-control bindings are removed and the platform is added; a missing Platforms element throws |
| Project.ProcessLibraryProject | VSProjectFixer/Program.cs:1069-1084 | a project that is not a VisualStudioProject or has no Platforms throws; otherwise there is one report per configuration and a converted configuration for each of Debug, OptDebug, QA and Retail |
| Project.ProcessLibraryProjectDocument | VSProjectFixer/Program.cs:967-1084 | the finished project has no source-control binding left, every other attribute as before, and Platforms ending with `Platform Name="Xbox"` |
| Solution.Clean | VSProjectFixer/Program.cs:1144-1160 | the output lines are input lines, never more of them, and none opens a source-control section |
| Solution.CleanKeepsPlainLines | VSProjectFixer/Program.cs:1144-1160 | a solution without a source-control section is kept verbatim |
| Solution.CleanRemovesSection | VSProjectFixer/Program.cs:1144-1160 | the lines before a section stay, the section from its opening line through the next closing line goes, and cleaning continues after it |
| Solution.CleanRemovesUnclosedSection | VSProjectFixer/Program.cs:1144-1160 | a section that is never closed removes the rest of the file |
| Solution.CleanSlnIdempotent | VSProjectFixer/Program.cs:1144-1160 | cleaning a cleaned solution changes nothing |

Behaviour of the code worth noting:

- the map header is matched with `StartsWith`, not equality;
- map lines split on spaces only, so a tab-separated line is skipped;
- a record such as `<absolute>:x.obj` creates a key `<absolute>`, because only the whole last field is compared with `<absolute>`;
- the reconciler is not idempotent (`Reconcile.SecondRunAppends`);
- a header whose object is not needed is excluded, while a needed header with no legacy configuration gets none (its legacy configuration, if any, is relabelled);
- ExcludeFileReference reads RelativePath on every child of the filter, Filter children included, so a sub-filter listed before the file throws.

## Left out

- Reading and writing files (`XmlDocument.Load`/`Save`, `StreamReader`, `File.ReadAllLines`, `StreamWriter`): the model works on a parsed tree and on lines.
- Console and Debug output: its content is returned as data. `Debug.WriteLine` lines are not modelled.
- `Main` (argument checks, the hard-coded project list, file moves): it is plumbing.
- The per-library ReferenceFile/ExcludeFileReference lists (lines 489-948): these are static data. `ProcessConfiguration` takes its configuration's list as a parameter of `Project.Edit` values. `RunConfigurations` and `ProcessLibraryProject` take a function from configuration name to list, because a list may depend on the configuration: x_files excludes x_debug.cpp for Retail only (lines 524-528).
- The `A51` main-project branch of ProcessProjectFile (lines 977-1068): it consists of literal string appends and command-line rewrites. `ProcessLibraryProject` models only the library branch.
- Text, comment and whitespace nodes of the XML: every child is an element here. In the source, a non-element child would throw on `.Attributes`.
- Culture-sensitive `ToUpper`: only ASCII letters are upper-cased.
- Culture-sensitive `StartsWith` and `EndsWith` (lines 119, 207, 1100, 1147, 1152): .NET compares these with the current culture, which skips ignorable characters such as a soft hyphen. The model compares char by char, so `"x.hpp\u00AD".EndsWith(".hpp")` holds in .NET but not in the model. On ASCII text the two agree.
- The drive-letter and alternate-separator rules of `Path.GetFileNameWithoutExtension`: only `\` and `/` count as separators.
- The release build: there `Debug.Assert` is not checked, and a missing file in ExcludeFileReference would pass silently.
- Attribute-level XML namespaces and the lazily created `Attributes` collection: neither matters to the logic.
- Commented-out attribute edits (for example lines 93-94 and 415-425): dead code.
- Configuration.TemplateIsXbox: it does not state the template's AdditionalIncludeDirectories value, which is fixed data.
- Reconcile.FixFile: it does not model the order of the MISSING FILE line relative to a throw later in the same file; the line is reported only when the file gets through.
