# lbuild core in Dafny

This project models the engine of lbuild, the modular code generator of the
modm project: the part that turns repositories, modules and options into a
resolved, dependency-closed set of modules, together with the registries
and helpers that the build uses. It covers:

- the node tree of parser, repositories, modules and options, with
  partial-name completion, wildcard and `:**` resolution, "Unknown" and
  "Ambiguous" failures, typed lookups, dependency-name resolution and the
  propagation of `available`/`selected` from parents to children
  (`nodetree.dfy`);
- option typing: boolean tokens, bounded integers with `int(v, 0)` parsing,
  enumerations, comma-separated sets with order-preserving de-duplication,
  the REQUIRED state and dependency handlers (`options.dfy`);
- module scripts' `init`/`prepare` hooks and `build_modules`, which names,
  links and updates module nodes (`modules.dfy`);
- the parser: loading repositories through the `extends` chain, merging
  configured options, preparing repositories, the depth-bounded dependency
  closure and the phase schedule of validation and build (`parser.dfy`);
- configuration trees: command-line overrides, `extend`, `flatten`,
  `${ENV}` substitution and the XML-to-dict conversion (`config.dfy`);
- collectors, queries and the build log (`collector.dfy`, `queries.dfy`,
  `buildlog.dfy`);
- the DOT dependency graph, template filters and utilities
  (`depgraph.dfy`, `filters.dfy`, `utils.dfy`), over shared models of
  Python strings, paths, sorting, fnmatch and values (`text.dfy`,
  `paths.dfy`, `sorting.dfy`, `glob.dfy`, `pyvalue.dfy`, `errors.dfy`);
- lbuild's predecessor blob: module lookup by two-part name, module
  declarations, and the in-place dependency closure that blob's parser and
  the stand-alone `lbuild.py` script share (`blob_environment.dfy`,
  `blob_module.dfy`, `blob_parser.dfy`).

Python exceptions are `Result` values whose `Error` names the exception
class and its message. Objects whose fields the source updates in place
(the node tree, module declarations, collectors, queries, the build log,
blob's module list) are classes; the rest is functions over datatypes.
Hooks supplied by repository and module scripts are given as data: what
each hook returns or raises.

## Model

| member | source | states |
|---|---|---|
| NodeTree.InitialTraits | lbuild/node.py:199-206 | a new node is available exactly when it is not a module, and it is selected |
| NodeTree.SegmentMatchWild | lbuild/node.py:378-380 | a name segment of a node query matches exactly as anytree's `*`/`?` wildcard match says |
| NodeTree.GlobFrom | lbuild/node.py:378-380 | the glob below a node returns exactly the nodes the segments reach, each once, in creation order |
| NodeTree.Descendants | lbuild/node.py:385-386 | `descendants` are exactly the proper descendants of the node, each once |
| NodeTree.ConcatDescendants | lbuild/node.py:384-386 | the descendant lists of all matches, concatenated, contain exactly the proper descendants of some match |
| NodeTree.ConcatDistinct | lbuild/node.py:384-386 | the descendant lists of pairwise unrelated nodes are disjoint |
| NodeTree.GlobIncomparable | lbuild/node.py:378-380 | the glob matches of one query are pairwise unrelated (no match lies below another) |
| NodeTree.ExpandAsWrittenStep | lbuild/node.py:383-386 | one pass of the as-written loop appends the descendants of the nodes it iterates and then iterates those too |
| NodeTree.ExpandAsWrittenRepeats | lbuild/node.py:383-386 | as written, a node two levels below a match appears at least twice in the `:**` result |
| NodeTree.Expand | lbuild/node.py:383-386 | the intended `:**` expansion holds exactly the matches and the nodes below some match |
| NodeTree.ExpandDistinct | lbuild/node.py:383-386 | the intended expansion of unrelated matches lists no node twice |
| NodeTree.StarFields | lbuild/node.py:374 | normalisation keeps the number of fields |
| NodeTree.NormalizeFields | lbuild/node.py:374 | after normalisation every field is the given non-empty field or `*`, none is empty |
| NodeTree.Found | lbuild/node.py:375-381 | the glob from the root yields in-range, pairwise unrelated nodes; a wrong root or an unresolvable path yields none |
| NodeTree.Resolve | lbuild/node.py:371-388 | `_resolve` yields only nodes of the tree; a trailing `:**` uses the intended expansion (see Findings) |
| NodeTree.ResolveDistinct | lbuild/node.py:371-388 | the intended `_resolve` never reports a node twice |
| NodeTree.ResolveRecursive | lbuild/node.py:383-386 | with a trailing `:**` a node is in the result exactly when it is a match or lies below one |
| NodeTree.ZipFill | lbuild/node.py:409-413 | `zip_longest` filling keeps the length and each non-empty part, and takes the fill value (or `""`) for empty parts |
| NodeTree.FillPartialName | lbuild/node.py:390-414 | the filled name has the request's length, keeps every non-empty requested field and takes empty ones from the caller's full name at that index, or `""` past its depth |
| NodeTree.FillLeaf | lbuild/node.py:398-399 | a one-field request is the caller's full-name fields with the leaf appended |
| NodeTree.EmptyStars | lbuild/node.py:357 | turning `*` into empty fields keeps the number of fields |
| NodeTree.ResolvePartial | lbuild/node.py:350-369 | None iff both the literal and the completed query resolve to nothing; otherwise one of the two, non-empty, the literal when unique, the smaller of two non-empty ones, the literal on a tie |
| NodeTree.FullNames | lbuild/node.py:346-347 | the full names of the nodes, in order |
| NodeTree.ResolvePartialMax | lbuild/node.py:340-348 | succeeds iff the partial resolution is non-empty with at most `max_results` nodes and returns it; "Unknown" when nothing resolves and "Ambiguous" listing every full name otherwise |
| NodeTree.Lookup | lbuild/node.py:130-145 | failures are lbuild errors; the value resolver returns the option's value, any other resolver a node of the searched type |
| NodeTree.LookupSpec | lbuild/node.py:130-145 | a lookup succeeds iff the key resolves to one node that is available, selected when required and of the right type, and then returns that node (or its value) |
| NodeTree.FindAll | lbuild/node.py:307-315 | `_findall` returns exactly the nodes of the type, available, selected unless not required, within the depth and other than the node |
| NodeTree.ChildOptions | lbuild/node.py:231-233 | `options` holds nodes of the tree |
| NodeTree.ChildOptionsSpec | lbuild/node.py:231-233 | `options` are exactly the available, selected option children of the node |
| NodeTree.WithColon | lbuild/node.py:327 | exactly the names that contain a `:` |
| NodeTree.DependencyNames | lbuild/node.py:327 | exactly the dependency names with a `:`, each once |
| NodeTree.LookupAll | lbuild/node.py:328-329 | one module lookup per dependency name |
| NodeTree.LookupAllModules | lbuild/node.py:328-329 | every successful lookup finds an available, selected module node |
| NodeTree.Collect | lbuild/node.py:328-334 | ignoring failures never fails; the collected modules are distinct and in range; a failure carries "Cannot resolve dependencies!" and a failed lookup |
| NodeTree.CollectFails | lbuild/node.py:330-332 | collecting fails iff failures are not ignored and some lookup failed |
| NodeTree.CollectMembers | lbuild/node.py:328-334 | the collected modules are exactly those some lookup found |
| NodeTree.Resolution | lbuild/node.py:324-334 | ignoring failures never fails; the resolved dependencies are distinct nodes of the tree |
| NodeTree.ResolutionComplete | lbuild/node.py:327-329 | every module a `:` name looks up is among the resolved dependencies |
| NodeTree.ResolutionSound | lbuild/node.py:327-329 | every resolved dependency is an available, selected module that some `:` name looks up |
| NodeTree.ResolutionFailsOn | lbuild/node.py:330-332 | without ignoring, one failing `:` name makes the resolution fail |
| NodeTree.ResolutionFailure | lbuild/node.py:330-332 | a failed resolution only happens without ignoring and reports a failing `:` name behind "Cannot resolve dependencies!" |
| NodeTree.Without | lbuild/node.py:246-247 | the elements other than the node, in order |
| NodeTree.DepsOf | lbuild/node.py:245-247 | exactly the dependencies of the given options other than the node |
| NodeTree.OptionDeps | lbuild/node.py:245-247 | the option part of `dependencies` never holds the node and holds exactly the dependencies of its child options |
| NodeTree.InheritFlag | lbuild/node.py:428-430 | a flag with default True is inherited as the conjunction of child and parent |
| NodeTree.UpdateConjoins | lbuild/node.py:441-452 | after `_update`, a node below is available (selected) iff it, every node up to the start and the start's parent were |
| NodeTree.UpdateFilters | lbuild/node.py:424-426 | after `_update`, a node below holds every filter of the nodes from the start's parent down to it |
| NodeTree.UpdateAt | lbuild/node.py:441-452 | the traits of every node after `_update` on a node |
| NodeTree.UpdateAtIs | lbuild/node.py:441-452 | traits that agree with `_update` inside the subtree and are unchanged outside it are `UpdateAt` |
| NodeTree.Outcomes | lbuild/node.py:324-334 | one resolution outcome per node |
| NodeTree.OutcomesNames | lbuild/node.py:324-334 | the outcomes depend only on the dependency names, not on resolved state |
| NodeTree.UnderChild | lbuild/node.py:338-339 | below a child lie exactly the nodes whose way down from the parent starts at that child |
| NodeTree.Tree.constructor | lbuild/node.py:177-206 | a tree with one root node, its initial traits and no dependencies |
| NodeTree.Tree.AddNode | lbuild/node.py:177-206 | a new node is appended with its initial traits and no dependencies; nothing else changes |
| NodeTree.Tree.SetParent | lbuild/module.py:72-74 | only the node's parent changes |
| NodeTree.Tree.AddDependencies | lbuild/node.py:279-285 | the names are appended to the node's dependency names; nothing else changes |
| NodeTree.Tree.AddOption | lbuild/node.py:287-299 | fails iff a child of the owner has the name, changing nothing; otherwise the option becomes a child with full name owner + ":" + name, the owner's repository and a dependency on the owner |
| NodeTree.Tree.SetOptionValue | lbuild/option.py:43-52 | the option's state is what the setter leaves; after a successful conversion the resolved mark is cleared and the handler runs on the new input: a handler that raises is the error and adds no names, otherwise its names are appended to the dependency names |
| Options.SetterError | lbuild/option.py:43-52 | the error of setting a value is the conversion's error, else none exactly when the dependency handler succeeds on the new input |
| NodeTree.Tree.Update | lbuild/node.py:416-452 | every node of the subtree gets the traits inherited top-down from its parent; nodes outside are unchanged |
| NodeTree.Tree.SetModuleTraits | lbuild/module.py:170-172 | the node's availability is set and the module's filters are added; nothing else changes |
| NodeTree.Tree.ResolveDependencies | lbuild/node.py:317-338 | only nodes reached without passing a resolved node change; on success each of them holds its resolved dependencies and is marked resolved unless failures are ignored; a failure is one reached node's failure; with failures ignored there is none |
| NodeTree.IgnoredNeverFails | lbuild/node.py:328-333 | with failures ignored no reached node's resolution fails |
| NodeTree.Tree.ResolveSubtree | lbuild/node.py:317-338 | the same walk with the outcomes fixed at the start |
| NodeTree.Tree.ResolveChildren | lbuild/node.py:337-338 | the loop over the children extends the walk of the settled node |
| NodeTree.Tree.Dependencies | lbuild/node.py:242-248 | resolves first unless resolved; returns the node's modules followed by its options' dependencies other than itself |
| Options.AsBoolean | lbuild/option.py:128-140 | the result is None or a bool; any failure is "Value ... must be boolean!" |
| Options.AsBooleanString | lbuild/option.py:134-140 | a string gives True iff its lower-case form is `true`, `yes` or `1`, False iff it is `false`, `no` or `0`, and fails otherwise |
| Options.AsBooleanInt | lbuild/option.py:132-140 | the ints 1 and 0 give True and False and every other int fails |
| Options.AsBooleanIdempotent | lbuild/option.py:128-140 | converting a converted value again changes nothing |
| Options.ParseIntToStr | lbuild/option.py:199 | `int(str(i), 0) == i` for every int |
| Options.AsNumericValue | lbuild/option.py:191-204 | succeeds iff the value is None, a number, or a string that is an integer literal with optional base prefix; the result is None or a number; failure is "must be numeric!" |
| Options.NumericInputRoundTrip | lbuild/option.py:147-149 | the stored input `str(i)` converts back to `i` |
| Options.BoundsError | lbuild/option.py:162-167 | no error iff the value lies within the bounds that are given |
| Options.Lookup | lbuild/option.py:257 | a key has an entry iff it is among the keys |
| Options.Put | lbuild/option.py:214-221 | after `t[k] = v` the key maps to `v` and the keys are the old ones plus `k` |
| Options.PutOther | lbuild/option.py:214-221 | putting one key leaves the other keys' values alone |
| Options.ObjToStr | lbuild/option.py:235-239 | succeeds iff the object is not an Enum class, and gives its stripped `str` |
| Options.FromPairs | lbuild/option.py:214-219 | the dict comprehension's keys are exactly the keys given |
| Options.FromPairsLookup | lbuild/option.py:214-219 | with pairwise different keys every key finds its own value |
| Options.ItemKeys | lbuild/option.py:219 | the key of each element, in order |
| Options.FromMembers | lbuild/option.py:213-214 | every enum member's key is in the map |
| Options.FromItems | lbuild/option.py:219 | succeeds iff no element is an Enum class, and is the map from each element's key to the element |
| Options.FromDict | lbuild/option.py:220-221 | a dict enumeration is kept entry by entry |
| Options.EnumTable | lbuild/option.py:213-227 | a dict with a non-string key fails; a list/tuple/set/range succeeds only with distinct elements; any other type is "not supported" |
| Options.FromItemsLookup | lbuild/option.py:219 | with distinct keys, an element's key looks up that element |
| Options.AsEnumeration | lbuild/option.py:255-261 | succeeds iff the value's key is in the map; otherwise the error lists the valid keys |
| Options.EnumerationOfItem | lbuild/option.py:255-257 | every element of a list enumeration converts to itself |
| Options.EnumerationOfKey | lbuild/option.py:255-257 | every key, given as a string, converts to the value stored under it |
| Options.StrToSet | lbuild/option.py:280-286 | a string gives its `,`-separated pieces, each stripped; anything else its listified elements, stringified |
| Options.Dedup | lbuild/option.py:291 | exactly the elements of the input, each once |
| Options.DedupOrder | lbuild/option.py:291 | the elements keep the order of their first occurrences |
| Options.DedupDistinct | lbuild/option.py:291 | a list without duplicates is its own dedup |
| Options.DedupIdempotent | lbuild/option.py:291 | dedup twice is dedup once |
| Options.EnumerateAll | lbuild/option.py:291 | succeeds iff every key converts, and then holds each key's value in order |
| Options.AsSet | lbuild/option.py:288-291 | a list of the enumeration values of the de-duplicated pieces, in first-occurrence order; fails iff some piece is not a key |
| Options.AsCallable | lbuild/collector.py:125-129 | succeeds iff the object is callable, returning it; otherwise the ValueError "must be callable!" |
| Options.SetDefault | lbuild/option.py:37-41 | a None default leaves the option; otherwise it succeeds iff both conversions do, and sets input, output and default |
| Options.NewOption | lbuild/option.py:24-35 | the handler is kept; a numeric option with minimum ≥ maximum fails; an enumeration whose key map fails fails |
| Options.NoDefaultIsRequired | lbuild/option.py:31-34 | with an explicit `None` default the value is None (REQUIRED) and the option is at its default |
| Options.DefaultArgument | lbuild/option.py:105-117 | the default a constructor uses when none is passed: False for a boolean option, `None` for every other kind |
| Options.OmittedDefault | lbuild/option.py:108-117 | with the default argument omitted a boolean option is built, is not REQUIRED and outputs False, while any other option that builds is REQUIRED |
| Options.NewOptionIsDefault | lbuild/option.py:70-71 | a freshly constructed option with a default is at its default |
| Options.PreCheck | lbuild/option.py:159-167 | only numeric options check anything before storing |
| Options.SetValue | lbuild/option.py:49-64 | no error iff the checks and both conversions pass, and then input and output are the converted value; a failed check or input conversion changes nothing; a failed output conversion leaves the new input stored |
| Options.NumericBounds | lbuild/option.py:159-168 | a numeric option accepts exactly the ints within its inclusive bounds, storing them, and a rejected value changes nothing |
| Modules.ParentOfFullName | lbuild/module.py:101-103 | dropping the last segment of `parent:name` gives the parent back when the name has no `:` |
| Modules.NormalParent | lbuild/module.py:115-118 | the normalised parent always starts with the repository name |
| Modules.NormalParentKeeps | lbuild/module.py:115-118 | a parent already under the repository and not starting with `:` is kept |
| Modules.NormalParentIdempotent | lbuild/module.py:115-118 | normalising twice is normalising once |
| Modules.NormalParentExamples | lbuild/module.py:115-118 | `:a`, `a` and `repo:a` all become `repo:a`; the test is a string prefix test, so `repository:a` is kept under `repo` |
| Modules.InitSpec | lbuild/module.py:105-118 | succeeds iff the hook succeeds and sets a name; a raising hook is forwarded with the module; a missing name is the "must set a module name" error; on success the parent is normalised |
| Modules.GatherSpec | lbuild/module.py:138-149 | gathering submodule results fails iff one fails, with the first failure, and otherwise concatenates them in order |
| Modules.Loads | lbuild/module.py:138-147 | one loading outcome per declared submodule |
| Modules.LoadReturnsAvailable | lbuild/module.py:28-45 | every module a load returns is available and belongs to the repository |
| Modules.PrepareReturnsAvailable | lbuild/module.py:120-149 | every module `prepare` returns is available and belongs to the repository |
| Modules.PrepareOrder | lbuild/module.py:126-149 | a `None` result is an error; a truthy result puts the module first, then each submodule's modules in declaration order; a falsy one only the submodules' |
| Modules.ModuleInit.constructor | lbuild/module.py:85-99 | no name, the repository as parent, nothing declared, unavailable |
| Modules.ModuleInit.Init | lbuild/module.py:105-118 | the new state and error are those of `InitSpec`; availability is unchanged |
| Modules.ModuleInit.Prepare | lbuild/module.py:120-149 | returns `PrepareSpec`; the declarations are recorded and `available` takes the hook's result |
| Modules.LoadAll | lbuild/module.py:138-147 | the submodule loop returns the gathered outcomes of loading each submodule |
| Modules.Load | lbuild/module.py:28-45 | loading a module file returns `LoadSpec`: a new `ModuleInit` below the parent, initialised then prepared |
| Modules.ImplicitParentDependency | lbuild/module.py:179-181 | a module whose parent holds a `:` depends last on the full name it is linked below, and otherwise only on its declared dependencies |
| Modules.PrefixedFilters | lbuild/module.py:171-172 | every filter is registered under `<repository>.<name>` and nothing else is |
| Modules.ChildrenAreOptions | lbuild/module.py:176-177 | the children of a fresh module after its options are added are exactly those options |
| Modules.AddOptions | lbuild/module.py:176-177 | the options become children of the module in order, with prefixed full names, initial traits and a dependency on the module; a duplicate name fails at the first duplicate |
| Modules.ModuleDeps | lbuild/module.py:176-181 | the dependency states a new module leaves: the module depends on its declared names (and its parent when that is a module), each option on the module, none resolved |
| Modules.ModuleTraits | lbuild/module.py:164-177 | the traits a new module leaves: the module's, available iff its `available` is truthy, then the initial traits of each option |
| Modules.AddModuleNode | lbuild/module.py:164-172 | appends the childless module node with its availability and the repository-prefixed filters; nothing else changes |
| Modules.AddModuleDependencies | lbuild/module.py:179-181 | the module's dependency names gain its declared names, then its parent when the parent holds a `:`; nothing else changes |
| Modules.NewModule | lbuild/module.py:154-181 | a new module node with its availability and filters, its options below it, and exactly the traits and dependency states `ModuleTraits` and `ModuleDeps` give; fails iff an option name repeats, at the first repeat |
| Modules.RegistryLast | lbuild/module.py:65-68 | `rmodules` maps each full name to the last module created with it |
| Modules.CreateModules | lbuild/module.py:65-68 | one module node per init module, in order, and the registry; the traits and dependency states appended are those of each module in turn; fails iff some module repeats an option name, with the first such error |
| Modules.CreateLoop | lbuild/module.py:65-68 | the creation loop stops at the first module with a repeated option name and its error; otherwise every module has its node, in increasing positions, the registry is complete and the appended traits and dependency states are those of each module in turn |
| Modules.CreateNext | lbuild/module.py:66-68 | one round: the module node of the next init module with its traits and dependency states, or the first duplicate-option error |
| Modules.LinkModule | lbuild/module.py:71-74 | a module is linked below the registered module named by its full name minus its last segment when that holds a `:`, else below its repository; a missing parent is a KeyError with that name and changes nothing |
| Modules.LinkModules | lbuild/module.py:71-74 | every module is linked in order up to the first missing parent; no other node changes |
| Modules.UpdateAll | lbuild/module.py:77-78 | the traits after `_update` on each module in turn |
| Modules.UpdateModules | lbuild/module.py:77-78 | the traits become `UpdateAll`; nothing else changes |
| Modules.BuildModules | lbuild/module.py:62-80 | the nodes there were before keep their state; a repeated option name fails with the first one's error, else a missing parent fails as a KeyError naming the first; on success one module node per input in order, each linked below its parent module or repository, the traits are `UpdateAll` over the created modules and the dependency states are those creation leaves |
| Modules.ModuleOrder | lbuild/module.py:199-200 | ordering by full name is irreflexive, asymmetric and transitive |
| Parser.DiscoverInGraph | lbuild/parser.py:192-197 | one round finds exactly the dependencies of the current modules not yet selected, each once |
| Parser.FrontierSuffices | lbuild/parser.py:190-204 | only the modules found last can lead to modules not yet within reach, so iterating `current` alone loses nothing |
| Parser.WithinStable | lbuild/parser.py:198-200 | once a round finds nothing, the reach stays the same for any larger depth |
| Parser.RoundStateStep | lbuild/parser.py:201-204 | appending one round's discoveries gives the state of the next round |
| Parser.RoundsWithin | lbuild/parser.py:190-204 | from a round state, the remaining rounds add exactly the modules within `depth` more dependency steps |
| Parser.FilteredReach | lbuild/parser.py:185-213 | the result starts with the requested modules in order, adds no module twice and no requested one, and as a set is every module within `depth` dependency steps |
| Parser.WithinGrows | lbuild/parser.py:190-204 | reach that grows in each of the first n rounds has at least n more members |
| Parser.FilteredClosed | lbuild/parser.py:172-213 | with a depth at least the number of modules (as with `sys.maxsize`) the result is closed under `dependencies` |
| Parser.DependencyGraph | lbuild/node.py:242-248 | the `dependencies` of every node once all are resolved, as a graph on the tree's nodes |
| Parser.Flipped | lbuild/parser.py:207-209 | the flag loop keeps the number of nodes |
| Parser.SelectRounds | lbuild/parser.py:190-204 | the `while depth > 0` loop returns the filtered selection |
| Parser.Deselect | lbuild/parser.py:207-211 | the traits become the flag loop's result followed by `_update` from the parser; nothing else changes |
| Parser.FilterDependencies | lbuild/parser.py:172-213 | returns the filtered selection over the resolved dependency graph, and leaves the traits of the flag loop and `_update` |
| Parser.FlippedSpec | lbuild/parser.py:207-209 | every available, selected module below the parser stays selected exactly when it was kept; every other node keeps its traits |
| Parser.RunRunners | lbuild/parser.py:271-275 | the runners of one phase run in the given order until one raises something not collected |
| Parser.BuildModules | lbuild/parser.py:255-296 | the error and the hook calls are those `BuildSpec` gives |
| Parser.StepShape | lbuild/parser.py:271-275 | one runner adds at most its own call and, in the validate phase, one validate exception |
| Parser.PhaseCalls | lbuild/parser.py:267-275 | a phase calls only its own hook, on nodes it has reached, deepest first |
| Parser.PhaseErrors | lbuild/parser.py:272-275 | only the validate phase collects exceptions, and only validate exceptions |
| Parser.PhaseComplete | lbuild/parser.py:267-275 | a phase that nothing stopped called the hook of every node it passed that has one |
| Parser.RunPhaseShape | lbuild/parser.py:267-275 | a whole phase calls its own hook in depth order and collects only validate exceptions |
| Parser.ScheduleCovers | lbuild/parser.py:259-262 | every module and repository is in the schedule of each phase |
| Parser.BuildPhases | lbuild/parser.py:255-296 | an empty selection is refused with no calls; calls go phase by phase, deepest first; validation reaches every node with a hook unless another error stopped it; collected validate exceptions are raised together before any build; without a build log only validation runs |
| Parser.RepositoriesLast | lbuild/parser.py:259-271 | within a phase no repository runs before a module |
| Parser.Configured | lbuild/parser.py:132-133 | exactly the configured options with one `:` (repository level) or more than one (module level) |
| Parser.MergeSpec | lbuild/parser.py:129-165 | the merge keeps the tree well formed and its size |
| Parser.MergeOptions | lbuild/parser.py:129-165 | the nodes, dependency names and error are those of `MergeSpec` on the configured options of that level |
| Parser.MergeOnlyOptions | lbuild/parser.py:134-135 | a merge changes only the option state and dependency names of available, selected option nodes |
| Parser.MergeErrors | lbuild/parser.py:136-137 | a failed merge reports lbuild errors under "Failed to merge repository/module options!" and passes other errors on unchanged |
| Parser.UndefinedIn | lbuild/parser.py:240-245 | exactly the full names of the listed options whose value is `None` |
| Parser.UndefinedRepoOptions | lbuild/parser.py:247-248 | exactly the full names of options at most two levels below the parser whose value is `None`, each once |
| Parser.Repositories | lbuild/parser.py:146 | the repositories below the parser, in order |
| Parser.PrepareRepositories | lbuild/parser.py:139-155 | refused while a repository option is undefined, naming them; a failing `prepare` is passed on; no module at all is "No module found"; otherwise one module node per prepared module, linked below its parent module or repository, the traits updated, and the dependency states creation leaves resolved from the root with failures ignored |
| Parser.BuildAndResolve | lbuild/parser.py:150-154 | `build_modules`, the refusal of an empty result, then the resolution from the root with failures ignored, as `BuiltAndResolved` states |
| Parser.BuildNonEmpty | lbuild/parser.py:150-152 | `build_modules` then "No module found" for an empty result; on success the old nodes are kept, every module is linked below its parent, the traits are updated and the dependency states are those creation leaves |
| Parser.ResolveIgnoring | lbuild/parser.py:153 | the dependency states become what the resolution from the root with failures ignored makes of them; nodes and traits are unchanged |
| Parser.ParseRepository | lbuild/parser.py:114-127 | fails iff a child of the parser has the repository's name, changing nothing; otherwise the repository becomes the parser's child |
| Parser.ExtendAt | lbuild/parser.py:107-108 | extending keeps the node at the path and every configuration node |
| Parser.ExtendAliases | lbuild/parser.py:101-107 | each alias must be in the alias map; a success keeps every configuration node and extends below the file's node |
| Parser.ExtendAliasesSpec | lbuild/parser.py:101-106 | success needs every alias in the map; the first missing alias is reported as "Configuration alias ... not found" |
| Parser.ExtendEntrySpec | lbuild/parser.py:99-108 | a successful entry keeps every node but the file's, whose `extends` entry for the file is deleted |
| Parser.ExtendAliasesChain | lbuild/parser.py:107 | extending a chain by the loaded single-node files keeps a chain |
| Parser.ExtendsSpecChain | lbuild/parser.py:99-108 | when every configuration the loader returns is a single node, a whole pass over the `extends` entries keeps the configuration a chain |
| Parser.ApplyExtends | lbuild/parser.py:99-108 | the pass over the `extends` entries is `ExtendsSpec` |
| Parser.Minus | lbuild/parser.py:85 | set difference: exactly the elements of `xs` not in `ys`, unique when `xs` is |
| Parser.RoundCovers | lbuild/parser.py:85-89 | after a round, `parsed` covers every file given or found in the configuration |
| Parser.ReadRepositories | lbuild/parser.py:92-93 | every file is parsed and registered in turn until one fails, whose error is returned; on success the alias maps are merged in order |
| Parser.ReadRound | lbuild/parser.py:84-93 | the files read are the given or configured ones not read before, each once; none at all is "No repositories loaded!" |
| Parser.LoadRound | lbuild/parser.py:82-108 | one round takes the as-written flatten, reads new files, and either finishes with it when no `extends` remain or applies them to the configuration; no repository at all is "No repositories loaded!"; a chain extended by single-node configurations stays a chain |
| Parser.LoadRepositories | lbuild/parser.py:77-112 | every file is parsed at most once; no repository in the as-written flatten is "No repositories loaded!"; on success the result is the as-written flatten, has no `extends` left and every given or configured file was loaded; when the configuration is a chain and the loader returns single nodes it is also the intended flatten |
| Config.Get | lbuild/config.py:56-58 | a key has a value iff it is among the dict's keys |
| Config.PutGet | lbuild/config.py:79 | after `d[k] = v`, `k` maps to `v` and every other key to what it did before |
| Config.PutKeys | lbuild/config.py:79 | `d[k] = v` keeps the key order, appends a new key, and keeps a dict a dict |
| Config.Delete | lbuild/parser.py:108 | `del d[k]` removes exactly key `k` and keeps the other values |
| Config.UpdateGet | lbuild/config.py:91-95 | after `d.update(e)` a key of `e` has `e`'s value and any other key keeps its own |
| Config.CacheFolder | lbuild/config.py:71-75 | the folder set, else a path ending in `.lbuild_cache` beside the configuration file |
| Config.AddCommandlineOptions | lbuild/config.py:77-80 | the options and error are those of `CommandlineOptions` |
| Config.CommandlineOptionsSpec | lbuild/config.py:77-80 | with a `=` in every entry, each key (text before the first `=`) maps to the text up to the second `=` with origin `<cwd>/command-line`, later entries overriding earlier ones; the first entry without `=` raises |
| Config.AddCommandlineCollectors | lbuild/config.py:82-85 | the collectors and error are those of `CommandlineCollectors` |
| Config.CommandlineCollectorsSpec | lbuild/config.py:82-85 | keeps the existing collectors and appends one (name, value, origin) triple per entry in order; the first entry without `=` raises |
| Config.ReplaceAtNodes | lbuild/config.py:112-118 | replacing the subtree at a path exchanges exactly its nodes for the new subtree's |
| Config.SplicedNodes | lbuild/config.py:114-117 | splicing a configuration below a node loses no node of either tree and duplicates none |
| Config.SplicedBelowNodes | lbuild/config.py:114-117 | the same when the node has children: its first child moves below the new configuration |
| Config.ExtendNodes | lbuild/config.py:112-118 | `extend` at any node yields exactly the nodes of both trees |
| Config.LastPath | lbuild/config.py:124-126 | `last` is a node of the tree |
| Config.LastPathSpec | lbuild/config.py:124-126 | `last` is a leaf and the last node in pre-order, the root itself without descendants |
| Config.ExtendLastChain | lbuild/config.py:120-121 | on a chain, `extend_last` keeps a chain and puts all the new nodes before all the old ones in post-order |
| Config.AtChain | lbuild/config.py:137-170 | every node of a chain heads a chain |
| Config.ReplaceAtChain | lbuild/config.py:112-118 | a chain put in place of a node of a chain leaves a chain |
| Config.ExtendChain | lbuild/config.py:112-118 | `extend(node, config)` with a configuration of one node keeps a chain a chain |
| Config.Find | lbuild/config.py:128-129 | no node of the file gives None, one gives it, several give anytree's count error |
| Config.FindInSpec | lbuild/config.py:128-129 | the search finds one path per node of the file and every path leads to a node of the file |
| Config.AbsorbAllOptions | lbuild/config.py:87-101 | after absorbing nodes in order an option comes from the last node that sets it |
| Config.AbsorbAllPaths | lbuild/config.py:88-91 | outpath and cache folder come from the last node that sets them |
| Config.AbsorbAllLists | lbuild/config.py:93-98 | the lists are the concatenation of all the nodes' lists in order |
| Config.FlattenSpec | lbuild/config.py:87-109 | as intended, the root's options, outpath and cache folder override those of every file it extends, else the last node in post-order that sets them wins; repositories and modules are de-duplicated |
| Config.VisitChain | lbuild/config.py:87-101 | on a chain the as-written walk visits every node in post-order |
| Config.FlattenChain | lbuild/config.py:87-109 | on a chain the as-written `flatten` equals the intended one |
| Config.FlattenAsWrittenDropsNested | lbuild/config.py:87-101 | for X extending Y and Z, Y extending W, the as-written `flatten` loses W's repository and the intended one keeps it |
| Config.NestedAsWritten | lbuild/config.py:87-101 | the as-written `flatten` of that tree lacks W's repository |
| Config.NestedIntended | lbuild/config.py:87-101 | the intended `flatten` of that tree has W's repository |
| Config.CloseAt | lbuild/config.py:284 | the first `}` or line break at or after a position, where the lazy `.*?` stops |
| Config.FindKeysSpec | lbuild/config.py:284 | every key found has its `${key}` in the text and holds neither `}` nor a line break; a text without `$` has none |
| Config.SubstituteKeysSpec | lbuild/config.py:285-291 | substituting the keys of one text succeeds iff each is set to a non-empty value, and otherwise raises for the first one that is not |
| Config.SubstituteElementSpec | lbuild/config.py:279-294 | substitution of an element succeeds iff every key it looks at is defined, and then changes only texts |
| Config.SubstituteForestSpec | lbuild/config.py:280-293 | the same for a list of elements |
| Config.SubstituteSpec | lbuild/config.py:279-294 | `_substitute_env` succeeds iff every key below the root is defined; it keeps the root's own text and every tag and attribute |
| Config.AttribEntries | lbuild/config.py:322-324 | one entry per attribute |
| Config.GroupedSpec | lbuild/config.py:315-318 | grouping keeps, per tag, exactly the converted children of that tag in document order |
| Config.AttribEntriesSpec | lbuild/config.py:322-324 | key `@name` maps to attribute `name` and no other key is present |
| Config.AttribEntriesDict | lbuild/config.py:322-324 | distinct attribute names give distinct `@` keys |
| Config.ToDictSpec | lbuild/config.py:303-334 | a bare element maps to its stripped text (None without text); otherwise to a dict with one entry per child tag (a single value or the list), `@` attributes, and `#text` for non-empty stripped text |
| Collectors.Repository | lbuild/collector.py:23-25 | the module name up to (not including) its first `:` |
| Collectors.CheckAccepts | lbuild/collector.py:46-50 | a batch is checked without error iff the option accepts every value, and then the recorded values are the converted outputs in order |
| Collectors.CheckValues | lbuild/collector.py:48-50 | without error, one recorded value per input value, each the option's output for it |
| Collectors.CheckFirstError | lbuild/collector.py:48-49 | the error of a rejected batch is that of its first rejected value |
| Collectors.CheckStops | lbuild/collector.py:48-49 | once a value is rejected the rest of the batch is not looked at |
| Collectors.IndexOf | lbuild/collector.py:60 | finds the entry of the context with the same identity, or reports there is none |
| Collectors.ExtendEntries | lbuild/collector.py:59-62 | a new context gets a new entry at the end; a known one has the values appended and every other entry is kept |
| Collectors.NewContexts | lbuild/collector.py:52-57 | without operations one fresh context for the module; with operations one per operation with its module and filename |
| Collectors.Batch | lbuild/collector.py:52-57 | one entry with the batch per context |
| Collectors.ExtendAllFresh | lbuild/collector.py:52-57 | fresh contexts are never found, so each gets its own new entry holding the batch |
| Collectors.SelectedAppend | lbuild/collector.py:64-71 | extraction distributes over appended entries |
| Collectors.SelectedAll | lbuild/collector.py:65-71 | a filter admitting every context selects what no filter does |
| Collectors.UniqIsDistinct | lbuild/collector.py:72-73 | the de-duplicated values are pairwise different |
| Collectors.UniqCovers | lbuild/collector.py:72-73 | every value equals some de-duplicated value |
| Collectors.UniqFrom | lbuild/collector.py:72-73 | every de-duplicated value is one of the values |
| Collectors.UniqDistinct | lbuild/collector.py:72-73 | values without duplicates are kept as they are |
| Collectors.FirstUnhashable | lbuild/collector.py:73 | the first value that cannot be a dict key, or none |
| Collectors.UniqueValues | lbuild/collector.py:73 | raises iff some value is unhashable, else gives the first occurrences in order |
| Collectors.ValuesDefault | lbuild/collector.py:64-76 | the listified default exactly when nothing is selected and a default is given; otherwise the selected values, de-duplicated when asked |
| Collectors.Collector.constructor | lbuild/collector.py:34-39 | an empty collector for the option |
| Collectors.Collector.ExtendValues | lbuild/collector.py:59-62 | the entries become `Extend` of the old ones; nothing else changes |
| Collectors.Collector.AddValues | lbuild/collector.py:45-57 | a rejected value raises and records nothing of the batch; otherwise the checked batch is appended under a fresh context, or once under each operation's context |
| Collectors.Collector.AssignAll | lbuild/collector.py:48-50 | the checking loop computes `Check` and records nothing |
| Collectors.Collector.RecordAll | lbuild/collector.py:52-57 | the recording loop appends the batch under each context in turn |
| Collectors.Collector.Values | lbuild/collector.py:64-76 | returns `ValuesOf` and changes nothing |
| Collectors.AddedValues | lbuild/collector.py:52-76 | after `add_values` without operations, all values are the earlier ones followed by the batch, and a filter on the module selects the batch |
| Collectors.AddedPerOperation | lbuild/collector.py:52-55 | with operations the batch appears once per operation |
| Collectors.Repeat | lbuild/collector.py:52-55 | n copies of the batch |
| Queries.IndentOf | lbuild/query.py:33 | the leading run of spaces and tabs of a line |
| Queries.CommonPrefix | lbuild/query.py:33 | the longest common prefix of two strings |
| Queries.MarginSpec | lbuild/query.py:33 | the margin `dedent` removes is the longest indentation common to all non-blank lines, none when all are blank |
| Queries.DedentLines | lbuild/query.py:33 | each line with the margin removed |
| Queries.DedentEachLine | lbuild/query.py:33 | a blank line becomes empty; any other line loses exactly the common margin, which it has |
| Queries.DedentFlush | lbuild/query.py:33 | text with a line flush left and no whitespace-only line is unchanged |
| Queries.Description | lbuild/query.py:32-33 | without a docstring the description is empty |
| Queries.NewQuery | lbuild/query.py:19-35 | succeeds iff the function is callable and, without a name, is not a lambda; the name defaults to the function's; a non-callable is "must be callable!" |
| Queries.LambdaNeedsName | lbuild/query.py:24-28 | a lambda without a name is refused; with a name it is accepted under that name |
| Queries.QueryValue | lbuild/query.py:45-46 | the value is the function itself, whatever the environment |
| Queries.NewEnvironmentQuery | lbuild/query.py:51-58 | succeeds iff the query does and the factory takes exactly one parameter; otherwise "must take 'env' as argument!" |
| Queries.RunAll | lbuild/query.py:60-64 | one result per use |
| Queries.StoredForever | lbuild/query.py:60-64 | once a value is stored the factory never runs again and every use returns it, whatever environment, even when it is None |
| Queries.AtMostOnce | lbuild/query.py:60-64 | a factory that does not raise runs at most once and every use returns its first result |
| Queries.EnvironmentQuery.constructor | lbuild/query.py:56-58 | nothing is stored yet |
| Queries.EnvironmentQuery.Get | lbuild/query.py:60-64 | the stored state and the result are one `Step`: run on first use only, a raising factory stores nothing |
| BuildLogs.MetadataSets | lbuild/buildlog.py:38-42 | an operation's metadata: exactly the keys with at least one value, each with the set of its listified values |
| BuildLogs.LocalFilename | lbuild/buildlog.py:78-81 | raises iff the file name has no directory part (`relpath` of an empty path) |
| BuildLogs.SplitFileName | lbuild/buildlog.py:80 | `dirname` and `basename` of `dir/name` are `dir` and `name` |
| BuildLogs.DotJoinName | lbuild/buildlog.py:80-81 | `normpath(join(".", name))` is the name |
| BuildLogs.LocalFilenameOf | lbuild/buildlog.py:78-81 | a file directly inside a directory is local to it under its own name |
| BuildLogs.LocalFilenameAbs | lbuild/buildlog.py:78-81 | an absolute file name always has a local name |
| BuildLogs.LocalFilenameOutAbs | lbuild/buildlog.py:72-76 | with an absolute working directory every operation's output has a local name |
| BuildLogs.Merge | lbuild/buildlog.py:147-148 | merging one operation adds its keys, its file under each of them, and unions the value sets |
| BuildLogs.MergeKey | lbuild/buildlog.py:148 | the files and values under one key after the merge |
| BuildLogs.MergeDescribes | lbuild/buildlog.py:146-148 | after merging an operation the result describes the operations seen so far and it |
| BuildLogs.AddedMetadataUnion | lbuild/buildlog.py:104-107 | adding values under a key and a module adds exactly those values to that key's union and leaves other keys; adding none changes nothing |
| BuildLogs.AppendKeeps | lbuild/buildlog.py:189 | appending an operation to its module's list keeps the log consistent |
| BuildLogs.ReserveKeeps | lbuild/buildlog.py:188 | reserving the output file for a logged operation keeps the log consistent |
| BuildLogs.BuildLog.constructor | lbuild/buildlog.py:96-101 | an empty log whose output path is the working directory, or the absolute form of the one given |
| BuildLogs.BuildLog.Log | lbuild/buildlog.py:155-191 | relative input and output are joined to the module directory and the output path; an output already logged is refused naming both modules and nothing changes; otherwise it is reserved and the operation appended to its module's list |
| BuildLogs.BuildLog.LogUnsafe | lbuild/buildlog.py:193-207 | the operation is appended to its module's list; no file is reserved and nothing else changes |
| BuildLogs.BuildLog.AddMetadata | lbuild/buildlog.py:104-107 | the metadata becomes `AddedMetadata`; nothing else changes |
| BuildLogs.BuildLog.Modules | lbuild/buildlog.py:227-231 | strictly sorted, exactly the names of modules with logged operations |
| BuildLogs.BuildLog.Repositories | lbuild/buildlog.py:223-225 | exactly the first segments of those names, each once |
| BuildLogs.BuildLog.OperationsPerModule | lbuild/buildlog.py:209-221 | sorted by (module, input, output); each operation of a module whose name starts with the argument appears as often as it was logged, and no other |
| BuildLogs.BuildLog.AllOperations | lbuild/buildlog.py:233-238 | sorted by (module, input, output); each logged operation appears as often as it was logged |
| BuildLogs.BuildLog.OperationMetadata | lbuild/buildlog.py:143-153 | fails iff an operation carrying metadata has no local output name; otherwise for each key the local output files of the operations carrying it, each with the sorted union of their values |
| BuildLogs.BuildLog.MetadataView | lbuild/buildlog.py:109-118 | for each key with values, the sorted union of the values every module added |
| BuildLogs.BuildLog.ModuleMetadata | lbuild/buildlog.py:132-141 | for each key and module, the sorted values that module added |
| BuildLogs.BuildLog.RepoMetadata | lbuild/buildlog.py:120-130 | for each key and repository, the sorted union of the values its modules added |
| BuildLogs.ModuleCount | lbuild/buildlog.py:218-220 | adding a module's operations counts exactly the operations naming it |
| BuildLogs.LoggedAll | lbuild/buildlog.py:234-237 | the flattened operation lists hold exactly the logged operations |
| BuildLogs.CollectMetadata | lbuild/buildlog.py:146-148 | the loop fails iff some operation carrying metadata has no local output name, and otherwise describes all operations |
| BuildLogs.SkipDescribes | lbuild/buildlog.py:146-148 | an operation without metadata adds nothing to the collected metadata and is never asked its output name |
| BuildLogs.SortNested | lbuild/buildlog.py:150-152 | every value set of every key sorted, keys and files kept |
| BuildLogs.SortEach | lbuild/buildlog.py:138-140 | each value set sorted, with the same members |
| BuildLogs.SortRepos | lbuild/buildlog.py:123-129 | the value sets merged per repository (first name segment), each sorted |
| DependencyGraph.Identifier | lbuild/builder/dependency.py:16-17 | the result is an identifier, as long as the name plus one when it starts with a digit |
| DependencyGraph.IdentifierKeeps | lbuild/builder/dependency.py:16-17 | a name that already is an identifier is kept, so the substitution is idempotent |
| DependencyGraph.IdentifierAt | lbuild/builder/dependency.py:16-17 | each character is kept when it is a word character and becomes `_` otherwise |
| DependencyGraph.IdentifierExample | lbuild/builder/dependency.py:16-17 | `repo:module2` becomes `repo_module2`, `2nd-repo` becomes `_2nd_repo` |
| DependencyGraph.ModulesIn | lbuild/builder/dependency.py:33-35 | a repository's list holds exactly its modules |
| DependencyGraph.LabelDropsRepository | lbuild/builder/dependency.py:51-56 | the unclustered label is the repository, `:\n` and the clustered label |
| DependencyGraph.GraphLines | lbuild/builder/dependency.py:20-88 | the output starts with `digraph dependencies`, `{`, `\trankdir=BT;` and ends with `}` |
| DependencyGraph.DepEdgesSpec | lbuild/builder/dependency.py:77-85 | a module's edges are exactly those to its shown dependencies |
| DependencyGraph.EdgesSpec | lbuild/builder/dependency.py:76-85 | the edges are exactly the pairs of a module and a shown dependency of it |
| DependencyGraph.GraphEdges | lbuild/builder/dependency.py:76-85 | an edge `A -> B` is drawn iff A is a module, B one of its dependencies, and every module is shown or B is among the resolved modules |
| DependencyGraph.DashedIffEdgeMissing | lbuild/builder/dependency.py:61-70 | when not all modules are shown, an unselected module's box is dashed iff one of its edges is missing |
| DependencyGraph.GroupedPermutation | lbuild/builder/dependency.py:33-35 | with every repository listed once, grouping is a permutation of the modules |
| DependencyGraph.EachModuleOneBox | lbuild/builder/dependency.py:40-74 | the subgraphs together hold each module exactly once |
| DependencyGraph.Graphviz | lbuild/builder/dependency.py:20-88 | the output is the lines of `GraphLines` joined by newlines |
| DependencyGraph.GroupByRepository | lbuild/builder/dependency.py:33-35 | the repositories in first-seen order, each with exactly its modules in input order |
| DependencyGraph.EmitClusters | lbuild/builder/dependency.py:40-74 | the loop appends one subgraph per repository, modules sorted |
| DependencyGraph.EmitCluster | lbuild/builder/dependency.py:41-74 | one subgraph: heading, a box per module, closing brace |
| DependencyGraph.EmitNodes | lbuild/builder/dependency.py:50-73 | one box line per module |
| DependencyGraph.EmitEdges | lbuild/builder/dependency.py:76-85 | the edge lines of the sorted modules, each with its sorted dependencies |
| DependencyGraph.EmitDepEdges | lbuild/builder/dependency.py:77-85 | one `A -> B;` line per shown dependency B |
| DependencyGraph.EdgeDrawn | lbuild/builder/dependency.py:76-85 | one edge is drawn iff its module has that dependency and every module is shown or the dependency is among the resolved modules |
| Filters.DefaultFiltersPrefixed | lbuild/filter.py:59-66 | every default filter is registered as `lbuild.` followed by its function's name |
| Filters.IndentRestLines | lbuild/filter.py:19-27 | without `first_line`, the lines of the text joined by newlines, each after the first prefixed by `spaces` spaces |
| Filters.IndentRestSplit | lbuild/filter.py:27 | splitting the output at newlines gives the text's lines, each after the first with the prefix |
| Filters.SplitLinesFree | lbuild/filter.py:27 | no line of `splitlines()` holds a line break |
| Filters.IndentAllZero | lbuild/filter.py:24-25 | with `first_line` and no spaces the text is returned unchanged |
| Filters.SplitFilter | lbuild/filter.py:38-39 | succeeds iff the delimiter is not empty, and joining the pieces with it gives the value back |
| Filters.SplitHello | lbuild/filter.py:38-39 | `"Hello"` split on `"l"` gives `["He", "", "o"]` |
| Filters.Values | lbuild/filter.py:42-52 | at most one value per item |
| Filters.ValuesDistinct | lbuild/filter.py:50-51 | no collected value equals one collected before it |
| Filters.ValuesSound | lbuild/filter.py:48-51 | every collected value is the entry for the key of some dict item |
| Filters.ValuesComplete | lbuild/filter.py:48-51 | the entry for the key of every dict item is collected, up to equality |
| Filters.PrefixLaterNoNewline | lbuild/filter.py:27 | prefixing the later lines with newline-free spaces keeps every line free of newlines |
| Filters.PrefixedLength | lbuild/filter.py:24-25 | prefixing adds the prefix's length once for each line that is not blank, and nothing else |
| Filters.IndentAllLength | lbuild/filter.py:24-25 | `indent(text, spaces, first_line=True)` is the text lengthened by `spaces` for every non-blank line |
| Glob.ClassEnd | lbuild/utils.py:63 | the `]` closing a `[` class, as fnmatch finds it |
| Glob.LiteralMatch | lbuild/utils.py:63 | a pattern without special characters matches exactly itself |
| Glob.StarMatchesAll | lbuild/utils.py:63 | `*` matches every name |
| Glob.QuestionMatchesOne | lbuild/utils.py:63 | `?` matches exactly the one-character names |
| Glob.WildLiteral | lbuild/node.py:378-380 | without `*` and `?`, anytree's segment match is equality |
| Glob.BracketLiteral | lbuild/node.py:378-380 | `[a]` is literal in anytree's match and a class in fnmatch |
| Utils.ListifyOne | lbuild/utils.py:72-79 | None gives `[]`, list/tuple/set/range and plain iterators their elements, anything else (strings, dicts) a singleton |
| Utils.ListifyAppend | lbuild/utils.py:82-86 | `listify` distributes over concatenation of its arguments |
| Utils.ListifyAtomic | lbuild/utils.py:82-86 | atomic values are a fixed point |
| Utils.ListifyIdempotent | lbuild/utils.py:82-86 | listifying one value twice is listifying it once |
| Utils.Listrify | lbuild/utils.py:89-93 | `str` of every listified element, in order |
| Utils.EnvGet | lbuild/utils.py:105-109 | a missing entry and an entry holding None both read as None |
| Utils.FirstMissing | lbuild/utils.py:110-111 | the first required name the environment lacks, or none |
| Utils.GetGlobalFunctions | lbuild/utils.py:96-123 | fails iff a required name is missing, naming the first one; otherwise maps exactly the required and optional names found |
| Utils.WithForwardException | lbuild/utils.py:164-174 | the function's result is returned, lbuild exceptions are re-raised unchanged and others wrapped with the module |
| Utils.ForwardIsLbuild | lbuild/utils.py:164-174 | after forwarding every failure is an lbuild exception, and forwarding twice changes nothing |
| Utils.IgnoredFiles | lbuild/utils.py:59-67 | exactly the file names whose joined path matches some pattern |
| Paths.Join | lbuild/buildlog.py:174-176 | an absolute second part replaces the first; otherwise the result ends with it |
| Paths.Basename | lbuild/buildlog.py:80 | the base name has no `/` |
| Paths.NormPath | lbuild/buildlog.py:81 | `normpath` never returns an empty path |
| Paths.RelPathSelf | lbuild/buildlog.py:80 | a path relative to itself is `.` |
| Paths.DirnameAbs | lbuild/buildlog.py:80 | an absolute path has a directory part |
| Paths.NormPathAbs | lbuild/buildlog.py:81 | `normpath` keeps a path absolute |
| Paths.AbsPathAbs | lbuild/buildlog.py:44-48 | with an absolute working directory `abspath` is absolute |
| PyValue.DictGet | lbuild/option.py:257 | the lookup finds nothing iff no key equals `k` under Python equality, and otherwise the value of a key that does |
| PyValue.Str | lbuild/option.py:239 | `str` of a list, tuple, set, range, dict, enum class or function is non-empty and starts with its bracket or `<`, so it is never a plain word |
| PyValue.StrAll | lbuild/option.py:285 | `str` of each element, in order |
| Sorting.Sort | lbuild/buildlog.py:221 | `sorted` keeps the elements |
| Sorting.SortSorted | lbuild/buildlog.py:221 | the result is in key order |
| Sorting.InsertSorted | lbuild/buildlog.py:221 | inserting into a sorted list keeps it sorted |
| Sorting.NoDuplicatesPermutation | lbuild/buildlog.py:231 | a permutation of a list without duplicates has none |
| Sorting.SortSet | lbuild/buildlog.py:117 | `sorted(list(s))` is strictly sorted and holds exactly the set's members |
| Text.Find | lbuild/node.py:374 | the leftmost occurrence of the separator, or none |
| Text.Split | lbuild/node.py:374 | a split always yields at least one piece |
| Text.JoinSplit | lbuild/node.py:374 | `sep.join(s.split(sep)) == s` |
| Text.SplitPiecesFree | lbuild/node.py:374 | no piece of a split holds the separator |
| Text.FirstField | lbuild/collector.py:25 | `s.split(c)[0]`: the text before the first `c`, or all of it |
| Text.SplitJoin | lbuild/node.py:357 | splitting a join of separator-free parts gives the parts back |
| Text.SplitCount | lbuild/parser.py:132-133 | a one-character split yields one piece more than there are separators |
| Text.StripSpec | lbuild/option.py:239 | `strip` removes only leading and trailing whitespace, and what it keeps neither starts nor ends with whitespace |
| Text.StripIdempotent | lbuild/option.py:239 | stripping twice is stripping once |
| Text.Lower | lbuild/option.py:134 | `lower` maps each character, keeping the length |
| Text.IntToStr | lbuild/option.py:134 | `str(i)` is non-empty and starts with `-` iff `i` is negative |
| Text.SplitLinesKeepConcat | lbuild/filter.py:27 | the lines with their terminators concatenate back to the text |
| Text.LexIrreflexive | lbuild/module.py:199-200 | no full name precedes itself |
| Text.LexTransitive | lbuild/module.py:199-200 | the order of full names is transitive |
| Text.LexTotal | lbuild/module.py:199-200 | any two different strings are ordered one way |
| BlobEnvironment.PartsSpec | blob/environment.py:39 | unpacking `name.split(':')` into two parts succeeds iff the name holds exactly one `:`, and then the name is the parts joined by `:` |
| BlobEnvironment.Find | blob/environment.py:54-57 | `self.modules[name]` finds nothing iff no entry is registered under the name, and otherwise that entry's module |
| BlobEnvironment.ScanCounts | blob/environment.py:41-48 | over well-named entries the search raises "ambiguous" iff two or more module parts match, and otherwise holds the one match or nothing |
| BlobEnvironment.ScanFound | blob/environment.py:42-48 | the module the search holds belongs to a matching entry |
| BlobEnvironment.ScanStep | blob/environment.py:42-48 | one entry more: a well-named key never raises, and only a matching entry changes the search |
| BlobEnvironment.GetModuleUnqualified | blob/environment.py:39-52 | with an empty repository part: "not found" for no match, "ambiguous" for two or more, otherwise the one module whose module part matches |
| BlobEnvironment.GetModuleSearches | blob/environment.py:39-52 | an empty repository part takes the search branch |
| BlobEnvironment.PartsUnique | blob/environment.py:39 | the two parts of a name joined at one `:` are determined by it |
| BlobEnvironment.GetModuleQualified | blob/environment.py:53-57 | with a repository part the lookup succeeds iff an entry is registered under the full name, gives that entry's module, and otherwise raises "not found" |
| BlobEnvironment.GetModuleMalformed | blob/environment.py:39 | a name without exactly one `:` raises ValueError, whatever is registered |
| BlobModule.TwoPartOneColon | blob/module.py:69 | `len(dependency.split(':')) == 2` holds iff the name has exactly one `:` |
| BlobModule.Accepted | blob/module.py:68-72 | the accepted prefix: every entry in it is a two-part name and the entry after it is not |
| BlobModule.Module.constructor | blob/module.py:26-45 | the repository, file name and path are stored; no name, an empty description, no options and no dependencies |
| BlobModule.Module.SetName | blob/module.py:47-49 | the name is set and the full name is `repository:name`; nothing else changes |
| BlobModule.Module.AddOption | blob/module.py:54-65 | fails iff the name holds `:` or is already defined, with the source's message for each and the options unchanged; otherwise only that option is added |
| BlobModule.Module.Depends | blob/module.py:67-72 | the dependencies grow by exactly the accepted prefix; an error is raised iff some entry is not a two-part name |
| BlobParser.ModuleList.constructor | blob/parser.py:147 | the list holds the configured entries |
| BlobParser.Round | blob/parser.py:149-153 | a KeyError iff some name of `current` has no entry, naming the first; otherwise every dependency of `current` is listed or pending, the pending names are new, distinct and each a dependency of `current` |
| BlobParser.ResolveDependencies | blob/parser.py:145-158 | the configured entries stay a prefix, every added entry is new and a dependency of an entry before it; on success the list is closed under dependencies, and a KeyError names a listed module without an entry (the loop of lbuild.py:86-100 is the same code) |
| BlobParser.KeyErrorListed | blob/parser.py:151 | the KeyError of a round names a listed module without an entry |
| BlobParser.AllClosed | blob/parser.py:154-156 | a round that adds nothing leaves every listed entry closed under its dependencies |
| BlobParser.RoundStep | blob/parser.py:157-158 | extending the list by the round's additions keeps the prefix, the no-repeat and the support invariants, with one more round closed |
| BlobParser.Progress | blob/parser.py:157 | a round that adds a new name lowers the number of dependency names still unlisted, so the loop ends |

## Left out

- Reading files, hashing, modification times, the build log's lock and threads, logging, colour formatting and the command-line front end: outside the engine; file contents and hook outcomes are parameters.
- Templating (Jinja2), the `wordwrap` and `pad` filters (`textwrap.fill`, float arithmetic) and the version-control checkout of repositories: not part of this model.
- Parsing XML and validating it against the schema in `from_path`/`from_file`: the model starts from the element tree.
- `listify` as a template filter is `Utils.Listify` itself and has no member of its own.
- The parser's `find_modules`/`find_all`/`find_any` (lbuild/parser.py:220-238), which only apply `_resolve_partial` to each query, are not part of this model.
- NodeTree.InitialTraits: every node gets its own filter map. In the source every node holds the one module-level `DEFAULT_FILTERS` dict, which `NodeTree.Tree.SetModuleTraits` and the facade extend in place, so every node sees every module's prefixed filters and the dict merge of `_update` changes nothing. The filters only feed templating, which is left out.
- NodeTree.GlobFrom: matches are listed in node-creation order, not anytree's pre-order. This changes the order of the names in an "Ambiguous" message and of `_findall`, not which nodes are found.
- Options.Dedup: stands for `list(set(...))` as well (in `flatten`, `_resolve_dependencies` through `NodeTree.DependencyNames`, and `BuildLogs` repositories) with first-occurrence order; Python's set iteration order is not modelled, only the elements.
- Parser.LoadRepositories: runs at most `fuel` rounds and returns the `Unsettled` error "configuration extends still pending" when they are used up; the source loops until no `extends` remain.
- Parser.ExtendsSpecChain: holds only for loaders whose configurations are single nodes. `from_file` reads a file whose `extends` paths exist into a tree of several nodes (lbuild/config.py:195-204), and a pass that splices such a tree can leave a node with two children.
- Config.ExtendChain: holds only for a configuration of one node; splicing a configuration that has children below a node that has one gives that node's new child two children.
- `_update_format` at the end of `prepare_repositories` (lbuild/parser.py:154) only passes the description formatters down the tree, which feed templating; it is not part of this model.
- Modules.NewModule: stores `Truthy(available)` as the node's availability; the source stores whatever `prepare` returned and later tests it for truth, which gives the same answers.
- PyValue.Str: exact for None, bool, int, str, enum members and plain objects; for lists, tuples, sets, ranges, dicts, enum classes and functions only the bracketed form is modelled, enough for every test the core makes on it (no such string is a boolean token).
- Text.Lower: lower-cases ASCII letters only; no other character lowers to one of the letters and digits of the boolean tokens, so `as_boolean` is unaffected.
- Config.Extend: a configuration tree is a value and `extend` returns the spliced tree instead of relinking the node objects, so aliasing between configuration nodes is not modelled.
- Collectors: contexts have no `__eq__`, so they compare by identity; a serial number stands for each context's identity.
- Floating-point numbers, and Unicode beyond ASCII case mapping: not modelled.

## Findings

| source | as written | input that shows it | evidently intended | confidence | as-written member | corrected member |
|---|---|---|---|---|---|---|
| lbuild/node.py:383-386 | `modules = found_modules` aliases the list that the loop iterates, so the descendants appended are iterated as well and append their own descendants again | a tree x → c → d and the query `x:**`: the result is [x, c, d, d] | each match and each node below a match once | not executed | NodeTree.ExpandAsWritten, NodeTree.ExpandAsWrittenRepeats | NodeTree.Expand, NodeTree.ResolveDistinct |
| lbuild/config.py:87-101 | `_flatten` walks only the last child path and the siblings met on it | X extends Y and Z, Y extends W: W's repositories are lost | every node of the tree merged bottom-up, the root last | not executed; reachable, since `from_file` builds X with children Y and Z and W below Y when X's and Y's `extends` paths exist (lbuild/config.py:195-204) | Config.FlattenAsWritten, Config.FlattenAsWrittenDropsNested | Config.Flatten, Config.FlattenChain |
