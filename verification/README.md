# A verified model of ts-cloud's core algorithms

ts-cloud turns a configuration into CloudFormation templates and deploys them without an SDK. This
project models the parts of it that carry an algorithm or a protocol and proves what they promise:

- **Templates as graphs.** `Graphs` has paths, cycles and dependency orders. On them stand the three
  separate cycle checks: the deployment order (`DependencyGraphs`), the validator's cycle report
  (`TemplateValidator`, which also relates the two) and the builder's check (`Builder`). Resources
  and JSON values are in `Templates`.
- **The dashboard's topology.** `Topology` is the backwards search that highlights what reaches a
  node, `RoutedEdges` the matching of laid-out edges with the links they stand for.
- **Differences of templates.** `StackDiff` is the recursive property comparison, `PropertyPaths`
  its dotted paths, `StackAnalysis` the sorting of resources into buckets, `ReplacementNames` what
  the replacement check makes of the paths, `DangerousChanges` what is warned of.
- **Edit distance.** `Suggestions` fills the distance table in place; `Sorting` is the library sort.
- **Multipart upload.** `Parts` cuts a stream, `UploadProtocol` is the bounded pool as a protocol
  over requests, `Multipart` the uploader with its buffer, pool and list of parts.
- **Query parameters.** `Parameters` flattens nested parameters to dotted names, `ParameterNames`
  says what these tell.
- **XML responses.** `Texts` and `XmlParser` are the hand-written parser, `XmlElements` printed
  documents (sections 2.3, 3 and 3.1 of XML 1.0), `XmlClosing` what the closing-tag search makes of
  them, `XmlTags` what is read of a tag, `XmlProlog` what stands around the root, `XmlDocuments` the
  round trip and exactly when elements are read back, `XmlLosses` documents that are not.
  `Prototypes` has the names every JavaScript object answers to.
- **Waiting for a stack.** `StackWaiter` turns repeated newest-first fetches into one feed.
- **Signing and sending.** `PercentEncoding` and `QueryString` are the canonical query,
  `SigningCache` the cache of signing keys under interleaved calls, `Retries` the search for a
  response in a bounded number of attempts.
- **Credentials.** `CredentialProvider` is the single-flight refresh, `CredentialsFile` the one-pass
  reader of a credentials file.

What the source mutates is mutated here: classes hold its closure variables and fields, and loops
carry invariants that tie them to specification functions, about which the lemmas speak. The
network, the clock and callbacks are parameters: a `Service` says how every request is answered, a
poll function what every poll sees, a schedule which call moves next, a nondeterministic choice
which upload settles first. `JSON.stringify`, the case mapping and the cryptographic primitives are
arbitrary functions. A thrown error is a value of an outcome datatype.

Some promises do not hold of the code in general. Each of these has a lemma with inputs that show
it, and the exact condition under which the promise holds:

- The XML parser takes a start tag for one only if `>`, a blank or `/` follows the name, while XML
  allows a line break or tab; it reads names up to the first character other than `A-Z`, `a-z`, `0-9`
  and `_`, a start tag up to the first `>`, also in an attribute value, and an end tag only without
  white space before its `>`; and a child named like a member of `Object.prototype` is merged with
  the inherited value. Every element inside a document is read back at its place, value and end, if
  and only if all tags are readable in that sense (`XmlDocuments.AllTagsReadable`), no start tag is
  missed (`XmlClosing.Missed` counts them) and no child has such a name
  (`XmlDocuments.ReadsBackExactly`). Of the elements with an unreadable name or end tag an empty one
  is still read up to its own end, and only its name as a child is cut short; a text in one is lost
  (`XmlLosses.UnreadableTagEndsElsewhere`, `XmlLosses.TextIsLost`). An element with a `>` in an
  attribute is never read back, whatever its content (`XmlDocuments.BracketIsNotReadBack`). Where a
  start tag is missed a single value can be right all the same (`XmlLosses.LosesTheRest`).
- Comparing properties throws if and only if an object has become null, in that direction only.
- Printed property paths are ambiguous when keys contain dots or the path starts with an empty key;
  the replacement check, which goes by them, is right unless a changed property is misread so.
- A replacement that changes the type of a resource is warned of by its new type, so the loss of a
  database can go unmentioned.
- A resource that only one of two stacks has counts as added or removed if and only if its logical id
  is not the name of a member of `Object.prototype`; otherwise it is compared with the inherited
  value, and nothing is said of the loss of its data.
- The builder keeps dependencies of a resource that is added again without them: what it tracks is
  the `DependsOn` relation of the template if and only if no call for an id has a dependency that the
  last call for it lacks.
- With a resource of empty logical id the validator can find nothing and the sorter a cycle, if and
  only if the dependencies of that resource lead back to it.
- Flattening parameters throws if and only if an array has a null item (arrays directly in arrays
  excepted). The names read back with an entry for every value if and only if no key has a dot in
  it and no path leads through an empty key at the top into a further key.
- An edge of the dashboard can get the link of a dropped one, and one between other nodes, if and only
  if two links between different nodes have the same key, for which a name must contain `->`.
- A cache key stands for one set of parameters if and only if none of them contains a colon.
- Similarity scores stay in [0, 1] if and only if the case mapping lengthens no text.
- Only the newest page of events is fetched, so the feed skips events when more than a page has
  arrived since the last fetch; `StackWaiter` models a fetch as any window of the log and says
  exactly when nothing is skipped.

## Model

| member | source | states |
|---|---|---|
| DependencyGraphs.DependencyGraph.AddResource | packages/core/src/dependency-graph.ts:19-27 | a resource is stored under its id with exactly the dependencies the source reads from it; every other node, and the place of a known id, is unchanged |
| DependencyGraphs.DependencyGraph.ExtractDependencies | packages/core/src/dependency-graph.ts:32-48 | the set collected is the `DependsOn` names together with every reference at any depth of `Properties` |
| DependencyGraphs.DependencyGraph.FindReferences | packages/core/src/dependency-graph.ts:53-73 | adds exactly the names some subterm refers to by `Ref` (pseudo parameters excepted) or `Fn::GetAtt` |
| DependencyGraphs.DependencyGraph.Visit | packages/core/src/dependency-graph.ts:83-102 | a nested visit keeps the order found so far dependencies-first, finishes the name it was called for, or names a resource on a real cycle |
| DependencyGraphs.DependencyGraph.TopologicalSort | packages/core/src/dependency-graph.ts:78-109 | throws if and only if the dependency relation has a cycle, and then names a resource on one; otherwise every known or referenced name occurs once, after all it depends on; if all dependencies exist the result is a permutation of the resources added |
| DependencyGraphs.DependencyGraph.Validate | packages/core/src/dependency-graph.ts:114-122 | passes if and only if every dependency is a resource; otherwise names a dependency that is not |
| DependencyGraphs.DependencyGraph.GetDependents | packages/core/src/dependency-graph.ts:127-137 | exactly the resources that depend on the given one, each once |
| DependencyGraphs.GraphOfTemplate | packages/core/src/dependency-graph.ts:19-48 | a graph filled with the resources of a template has the edges the sorter reads from that template |
| DependencyGraphs.DependsOnMeans | packages/core/src/dependency-graph.ts:32-73 | a resource depends on a name if and only if its `DependsOn` gives it, as one name that is not empty or in a list, or some way through items and fields of `Properties` leads to a `Ref` of the name, pseudo parameters excepted, or to an `Fn::GetAtt` that begins with it |
| Templates.MentionsMean | packages/core/src/dependency-graph.ts:53-73 | a name is mentioned if and only if some way through items and fields leads to an object that refers to it |
| Templates.ListedMeans | packages/core/src/dependency-graph.ts:35-42 | `DependsOn` gives its one name, unless that is empty, or all names of its list |
| Graphs.CycleUsesBackEdge | packages/core/src/template-validator.ts:358-376 | if names are listed after all they point to, some excepted edges aside, every cycle takes an excepted edge |
| Graphs.ClosingAPath | packages/core/src/template-validator.ts:367-371 | the slice of the current path from the repeated name on, closed with that name, is a simple cycle |
| TemplateValidator.Traverse | packages/core/src/template-validator.ts:393-411 | adds exactly the names referenced at any depth, an empty `Ref` not counted |
| TemplateValidator.BuildGraph | packages/core/src/template-validator.ts:332-351 | the graph has the edges of `DependsOn` and of references in any attribute of a resource |
| TemplateValidator.DependsOnMeans | packages/core/src/template-validator.ts:332-351 | the same for the validator, which looks at all attributes and takes an empty `Ref` for none |
| TemplateValidator.Dfs | packages/core/src/template-validator.ts:358-376 | one call explores an unvisited name, restores the recursion stack, and adds only simple cycles noticed at names it visits |
| TemplateValidator.DetectCircularDependencies | packages/core/src/template-validator.ts:328-385 | every reported list is a simple closed path of dependency edges; no closing edge is reported twice; every cycle of the graph runs through a reported closing edge, so the report is empty if and only if the graph is acyclic |
| TemplateValidator.SorterReadsNoMore | packages/core/src/template-validator.ts:346-348 | whatever the sorter takes for a dependency, the empty name aside, the validator does too |
| TemplateValidator.SorterCyclePassesBlank | packages/core/src/template-validator.ts:396-401 | on a template the validator finds free of cycles, every cycle of the sorter passes through the empty name |
| TemplateValidator.ValidatedTemplatesSort | packages/core/src/template-validator.ts:328-385 | on a template without circular dependencies by the validator the sorter finds one only if some resource has an empty id |
| TemplateValidator.SorterFailsAtBlankOnly | packages/core/src/dependency-graph.ts:56-61 | with a resource of empty id: the sorter finds a cycle if and only if the dependencies of that resource lead back to it, and then some resource has a reference to the empty name |
| TemplateValidator.ValidateThenSort | packages/core/src/template-validator.ts:328-385 | the validator, then the sorter over the same resources: if nothing is reported and no id is empty the sort does not throw; with an empty id it throws if and only if that resource leads back to itself |
| TemplateValidator.BlankRefSeparates | packages/core/src/dependency-graph.ts:56-61 | the condition on the empty id is needed: a resource "" with a `Ref` to "" passes the validator and is a cycle for the sorter |
| TemplateValidator.MetadataRefSeparates | packages/core/src/template-validator.ts:346-348 | the converse does not hold: a reference in `Metadata` is a cycle for the validator only |
| Builder.CloudFormationBuilder.AddResource | packages/core/src/cloudformation/builder.ts:196-230 | the template gets the resource with its options; the tracked map gains exactly the requested dependencies and still covers every `DependsOn` |
| Builder.CloudFormationBuilder.TrackDependency | packages/core/src/cloudformation/builder.ts:266-273 | adds exactly the edges from the resource to the given names |
| Builder.CloudFormationBuilder.Visit | packages/core/src/cloudformation/builder.ts:284-305 | a nested visit finishes its name or names a resource on a real cycle of the tracked map |
| Builder.CloudFormationBuilder.ResolveDependencies | packages/core/src/cloudformation/builder.ts:279-310 | throws if and only if the tracked map has a cycle, naming a resource on one; when it returns, the `DependsOn` relation of the template is acyclic |
| Builder.Build | packages/core/src/cloudformation/builder.ts:39-48 | over any run of `addResource` calls the check throws if and only if the dependencies requested in the whole run form a cycle; the template has the dependencies of the last call for each id, and these are the tracked ones if and only if no call for an id has a dependency that the last one lacks; then the check throws if and only if the template has a `DependsOn` cycle |
| Builder.StaleExactly | packages/core/src/cloudformation/builder.ts:266-273 | what was ever requested and what the last calls request are the same dependencies if and only if nothing is stale |
| Builder.AnotherLast | packages/core/src/cloudformation/builder.ts:196-230 | one more call is the last one for its id and leaves the last calls for other ids as they are |
| Builder.AnotherRequest | packages/core/src/cloudformation/builder.ts:271-272 | tracking one more call adds to the edges requested so far exactly those of the call |
| Builder.StaleDependencyIsKept | packages/core/src/cloudformation/builder.ts:266-273 | adding an id again keeps its old dependencies: the check can reject a template whose `DependsOn` relation is acyclic |
| StackDiff.CompareProperties | packages/core/src/stack-diff.ts:126-182 | the recursive loop lists the differences `PropertyDeltas` finds, with their printed paths, in order, or throws where it does |
| StackDiff.ReportsWhatDiffers | packages/core/src/stack-diff.ts:130-179 | a change is reported if and only if its keys lead through objects on both sides to a difference that is not one of fields below, with the values there |
| StackDiff.ReportIsAPatch | packages/core/src/stack-diff.ts:126-182 | applying the changes to the old properties gives the new ones, arrays up to their printed form |
| StackDiff.PrintedReportIsAPatch | packages/core/src/stack-diff.ts:131 | where the reported paths split into their keys again (no dot in them, no way through an empty key at the top), applying the changes by their printed paths does the same |
| StackDiff.PlainNamesReadAsPrinted | packages/core/src/stack-diff.ts:131 | so they do where all property names are nonempty and free of dots |
| StackDiff.ReportsArePrefixFree | packages/core/src/stack-diff.ts:153-171 | no reported chain of keys is a prefix of another |
| StackDiff.NoPlaceTwice | packages/core/src/stack-diff.ts:128-130 | no place is reported twice |
| StackDiff.NothingReportedMeansSame | packages/core/src/stack-diff.ts:126-182 | the list is empty if and only if the trees are the same, arrays by printed form |
| StackDiff.SwappingSwaps | packages/core/src/stack-diff.ts:126-182 | swapping the arguments reports the same places with old and new value swapped, unless one direction throws |
| StackDiff.ThrowsOnNull | packages/core/src/stack-diff.ts:162-164 | the comparison throws if and only if somewhere an object has become null |
| PropertyPaths.PathsReadBack | packages/core/src/stack-diff.ts:131 | a printed path splits into its keys if and only if no key has a dot and the path does not lead through an empty key at the top |
| PropertyPaths.JoinMore | packages/core/src/stack-diff.ts:131 | one more key comes behind a dot, unless nothing stands in front of it |
| StackAnalysis.CheckIfReplacementRequired | packages/core/src/stack-diff.ts:188-220 | true if and only if the first component of some path is a listed property of the type |
| StackAnalysis.ReplacementTable | packages/core/src/stack-diff.ts:190-204 | which properties are listed for which type |
| ReplacementNames.ReplacementMeansListedPropertyChanged | packages/core/src/stack-diff.ts:212-217 | replacement is required if and only if a listed property differs between the two resources, or a change of another one is misread: its name has a dot or is empty and its path begins like a listed name |
| ReplacementNames.FiledByDifference | packages/core/src/stack-diff.ts:212-217 | replacement is required if and only if the printed path of some difference between the properties begins with a listed name: that of its first nonempty key, up to the first dot |
| ReplacementNames.FiledByTopKey | packages/core/src/stack-diff.ts:212-217 | unless a property of empty name has changed: if and only if the name of some changed property, up to its first dot, is listed |
| ReplacementNames.PlainNamesAreNotMisread | packages/core/src/stack-diff.ts:213 | nothing is misread when names are nonempty and free of dots |
| ReplacementNames.DottedNameIsMisfiled | packages/core/src/stack-diff.ts:213 | for every listed name and anything behind a dot: adding the property is filed under the listed name, which has not changed |
| ReplacementNames.EmptyNameIsMisfiled | packages/core/src/stack-diff.ts:131 | for every listed name: a change of the field of that name below an empty property name is filed under the listed name |
| StackAnalysis.AnalyzeStackDiff | packages/core/src/stack-diff.ts:38-121 | every logical id ends up in the bucket of its verdict, once and in order, with the right entry and reason, going by what reading the id in either stack finds; the summary says whether anything is replaced and lists the warnings; throws if and only if a resource of unchanged type has an object that became null |
| StackAnalysis.LoneIdsExactly | packages/core/src/stack-diff.ts:51-76 | a resource of one stack only counts as added or removed if and only if its id is not the name of a member of `Object.prototype`; otherwise one with a type counts as replaced |
| StackAnalysis.VerdictFromComparison | packages/core/src/stack-diff.ts:79-102 | no changes means unchanged properties; a listed property replaces, anything else updates |
| StackAnalysis.ChangesAreCounted | packages/core/src/stack-diff.ts:116 | the total of changes and the untouched ids make up all ids |
| StackAnalysis.EntriesSay | packages/core/src/stack-diff.ts:54-102 | what an entry says: ids of one stack only with their type; replacements with the new type, and the two types or the changes as the reason; updates with their changes, which are those the comparison returns |
| StackAnalysis.BucketInOrder | packages/core/src/stack-diff.ts:50 | the entries of a bucket are in the order of the ids |
| StackAnalysis.IdentifyDangerousChanges | packages/core/src/stack-diff.ts:225-272 | the warnings of the entries, in order; what these are say the rows below |
| DangerousChanges.AtMostOneWarning | packages/core/src/stack-diff.ts:228-269 | an entry gives rise to one warning at most, about its own id |
| DangerousChanges.DataLossIsWarned | packages/core/src/stack-diff.ts:229-252 | a loss of data is warned of if and only if a database instance, table, cache cluster or bucket is removed, or a resource is replaced and its new type is database instance, table or bucket |
| DangerousChanges.DowntimeIsWarned | packages/core/src/stack-diff.ts:254-257 | downtime is warned of if and only if a resource is replaced and is an instance afterwards |
| DangerousChanges.ConnectivityIsWarned | packages/core/src/stack-diff.ts:259-262 | connectivity is warned of if and only if a security group is updated |
| DangerousChanges.PermissionsAreWarned | packages/core/src/stack-diff.ts:264-270 | permissions are warned of if and only if a resource is updated or replaced and is a role or a policy afterwards |
| DangerousChanges.WarningsAppend | packages/core/src/stack-diff.ts:226-272 | the warnings come in the order of the entries |
| DangerousChanges.TypeChangeIsNotWarnedOf | packages/core/src/stack-diff.ts:69-76 | a database or bucket that becomes a resource of another, unlisted type is replaced without such a warning |
| DangerousChanges.InheritedIdIsNotWarnedOf | packages/core/src/stack-diff.ts:51-76 | nor is a resource that is removed, if its id is the name of a member of `Object.prototype` |
| Suggestions.LevenshteinDistance | packages/core/src/cli/suggestions.ts:9-35 | the table filled in place yields `Distance` |
| Suggestions.Neighbours | packages/core/src/cli/suggestions.ts:22-30 | neighbouring cells differ by at most one |
| Suggestions.TextbookRecurrence | packages/core/src/cli/suggestions.ts:22-30 | taking only the diagonal on a match gives the minimum of all three moves |
| Suggestions.DistanceIsLeastEdits | packages/core/src/cli/suggestions.ts:9-35 | the distance is the least number of single-character insertions, deletions and substitutions, made anywhere one after the other, that turn one text into the other |
| Suggestions.NoScriptIsShorter | packages/core/src/cli/suggestions.ts:9-35 | no edit script is shorter than the distance |
| Suggestions.ShortestScript | packages/core/src/cli/suggestions.ts:25-29 | some edit script is as short as the distance |
| Suggestions.Identity | packages/core/src/cli/suggestions.ts:9-35 | the distance is zero if and only if the texts are equal |
| Suggestions.DistanceSymmetric | packages/core/src/cli/suggestions.ts:9-35 | the distance is symmetric |
| Suggestions.TriangleInequality | packages/core/src/cli/suggestions.ts:9-35 | the distance satisfies the triangle inequality |
| Suggestions.LengthBounds | packages/core/src/cli/suggestions.ts:42-46 | the distance lies between the difference of the lengths and the longer length |
| Suggestions.ScoreRange | packages/core/src/cli/suggestions.ts:40-47 | scores lie in [0, 1] for all texts if and only if lower-casing lengthens no text |
| Suggestions.ScoreMeaning | packages/core/src/cli/suggestions.ts:40-47 | a score is at most 1, is 1 if and only if the texts agree but for case, is symmetric, and not negative when neither text becomes longer |
| Suggestions.ScoreFromEdits | packages/core/src/cli/suggestions.ts:39-46 | the score is one less the share of the least number of edits, between the lower-cased texts, in the longer of the two lengths; 1 for two empty texts |
| Suggestions.LengtheningBreaksTheRange | packages/core/src/cli/suggestions.ts:41-46 | every text that lower-casing lengthens scores below 0 beside the empty one |
| Suggestions.SuggestsTheBest | packages/core/src/cli/suggestions.ts:52-63 | at most five commands that reach the threshold, best first; one that reaches it is left out only for five no worse ones |
| Suggestions.EqualScoresKeepTheirOrder | packages/core/src/cli/suggestions.ts:57-62 | of commands with one score the first ones given are suggested, in the order given |
| Suggestions.LikelyTypoMeansCloseCommand | packages/core/src/cli/suggestions.ts:83-85 | true if and only if some command scores at least 0.7 |
| Parts.CutFlattens | packages/core/src/aws/s3.ts:865-867 | the part bodies concatenated are the stream |
| Parts.CutSizes | packages/core/src/aws/s3.ts:865-867 | every part but the last has exactly the part size, the last one 1 to that many bytes |
| Parts.CutCount | packages/core/src/aws/s3.ts:797 | the number of parts is the size divided by the part size, rounded up |
| Parts.CutIsTheOnly | packages/core/src/aws/s3.ts:865-867 | no other list of bodies has these sizes and this content |
| Parts.CutAt | packages/core/src/aws/s3.ts:866-867 | piece i is the slice of the stream from i times the part size on, of the part size or as far as the stream goes |
| UploadProtocol.AllowedRuns | packages/core/src/aws/s3.ts:799-888 | at every moment of an allowed run at most `concurrency` uploads are in flight, and the parts in flight and finished partition 1 to the last one started |
| UploadProtocol.AllowedRunMeans | packages/core/src/aws/s3.ts:865-888 | in an allowed run the parts are started in the order of their numbers, from one on without a gap, each with its own piece, and what is in flight is what has been started and not settled |
| Multipart.PartsUpload.DrainOne | packages/core/src/aws/s3.ts:847-851 | whichever upload settles first leaves the pool, alone, and is listed with its own etag; a rejection changes nothing and means some part was not accepted |
| Multipart.PartsUpload.StartPart | packages/core/src/aws/s3.ts:865-888 | the next part carries the next piece of the stream, starts only when the pool has a free slot, and is reported with the bytes handed over so far |
| Multipart.UploadParts | packages/core/src/aws/s3.ts:779-902 | for every chunking and completion order: succeeds if and only if the stream ends well and every part is accepted; then the list is parts 1 to n in order, each with its own etag, and all reports were made; the requests are an allowed run of the pool in any case |
| Multipart.SortedPartsAreTheList | packages/core/src/aws/s3.ts:898-899 | sorting the finished parts by number gives parts 1 to n |
| Multipart.FinishedPartsAreTheList | packages/core/src/aws/s3.ts:799-803 | the finished parts are, in some order, exactly the expected list, none lost or doubled |
| Multipart.EtagIsThere | packages/core/src/aws/s3.ts:838-841 | the etag listed is the header with its quotation marks left out, all other characters kept in order; it is missing if and only if the header has no other character |
| Multipart.UploadMultipart | packages/core/src/aws/s3.ts:649-705 | in terms of the options, the stream and the answers alone: the in-flight uploads never exceed the `concurrency` asked for, or 4; each upload carries its slice of the stream, of the part size asked for or 5 MiB if that is more; it succeeds if and only if the initiation, the stream, every part (with an etag) and the completion do; then everything has been started and settled and the completion lists parts 1 to n with the etags of their own uploads; a failure after the initiation ends with an abort |
| Multipart.AbortsOnceOrNever | packages/core/src/aws/s3.ts:700-704 | a run that throws after initiation aborts exactly once, as its last request; a run that returns never aborts |
| Multipart.LastReportIsComplete | packages/core/src/aws/s3.ts:879-887 | with the size known, the last progress report shows all bytes and all parts |
| Multipart.ReportsMean | packages/core/src/aws/s3.ts:879-887 | each progress report tells the bytes handed over up to its part, out of the size and the number of parts, as far as these are known |
| Parameters.FlattenParams | packages/core/src/aws/cloudformation.ts:453-475 | the recursive loop assigns the leaves of the tree in order, a later one over an earlier one of the same name, or throws where listing them does |
| Parameters.LeavesAreThere | packages/core/src/aws/cloudformation.ts:456-472 | every leaf listed is the value that following its names through the tree leads to; an array directly in an array is numbered from zero, others from one |
| Parameters.NothingIsLost | packages/core/src/aws/cloudformation.ts:456-472 | every value of the tree is listed, nulls excepted |
| Parameters.ItemsFromOne | packages/core/src/aws/cloudformation.ts:460-466 | the items of an array are named by the name of the array, a dot and their numbers from one on |
| Parameters.InnerItemsFromZero | packages/core/src/aws/cloudformation.ts:453-457 | those of an array that is the first item of an array by numbers from zero on |
| Parameters.DecimalReadsBack | packages/core/src/aws/cloudformation.ts:461 | the numerals used read back as their numbers |
| ParameterNames.FlattenedReadsBack | packages/core/src/aws/cloudformation.ts:453-475 | if every path is plain, a dotted name is in the result if and only if its parts lead to a value of the tree, and then it has that value |
| ParameterNames.PrintedNameReadsBack | packages/core/src/aws/cloudformation.ts:457 | a printed name splits into the names of its path if and only if these have no dot and the path does not lead through an empty key at the top into a further key |
| ParameterNames.NothingOverwritten | packages/core/src/aws/cloudformation.ts:462-470 | there are as many entries as values if and only if no two are printed alike, and then each value is under its printed name |
| ParameterNames.FlattensFaithfully | packages/core/src/aws/cloudformation.ts:453-475 | all names read back right and every value has an entry of its own, if and only if every path is plain in that sense |
| ParameterNames.PlainNamesArePlain | packages/core/src/aws/cloudformation.ts:453-475 | every path is plain when all keys are nonempty and have no dot in them |
| Parameters.ThrowsOnNullItem | packages/core/src/aws/cloudformation.ts:460-463 | flattening throws if and only if some names lead to a null item of an array that is not directly in such an array |
| ParameterNames.DottedKeysCollide | packages/core/src/aws/cloudformation.ts:457-470 | with a dot in a key one value overwrites another, for any two keys |
| XmlParser.FindMatchingClose | packages/core/src/aws/cloudformation.ts:485-521 | the loop computes `Close` from depth one |
| XmlParser.Close | packages/core/src/aws/cloudformation.ts:492-519 | on every string the search ends, with -1 or a place at which the closing tag stands |
| XmlParser.TagHasAnEnd | packages/core/src/aws/cloudformation.ts:503 | between an opening and the end of a later closing tag there is a `>`, so the position only grows |
| XmlParser.ParseElement | packages/core/src/aws/cloudformation.ts:523-595 | on every string parsing ends within it, and strictly further on when it finds a value at a tag |
| XmlParser.ParseElementInPlace | packages/core/src/aws/cloudformation.ts:523-595 | the recursive parser computes `ParseElement` |
| XmlParser.ParseChildrenInPlace | packages/core/src/aws/cloudformation.ts:562-592 | the loop over child positions computes `ParseChildren` |
| XmlParser.ParseCloudFormationXML | packages/core/src/aws/cloudformation.ts:481-599 | the whole parser: declaration and white space dropped, no value and the empty text read as the empty object |
| Texts.TrimMeans | packages/core/src/aws/cloudformation.ts:483 | trimming cuts off white space at both ends and nothing else |
| Texts.WordsAre | packages/core/src/aws/cloudformation.ts:539 | the class `\w`, by code point |
| Texts.SpacesAre | packages/core/src/aws/cloudformation.ts:525 | the class `\s`, by code point |
| Prototypes.InheritedNamesAre | packages/core/src/aws/cloudformation.ts:582 | the names a plain object has a value for without being given one |
| XmlClosing.PassElement | packages/core/src/aws/cloudformation.ts:485-521 | the search leaves a well-formed element behind it with one unclosed opening less for each start tag it misses inside, or ends inside |
| XmlClosing.FindsOwnClosingTag | packages/core/src/aws/cloudformation.ts:485-521 | the closing tag found is the own one of the element if and only if no start tag of its name inside is missed; otherwise it is an earlier one |
| XmlDocuments.EndsWhereItEnds | packages/core/src/aws/cloudformation.ts:550-594 | reading a printed element ends at its end if and only if no start tag of its name inside is missed |
| XmlDocuments.FieldsGrow | packages/core/src/aws/cloudformation.ts:581-589 | reading one more child makes it one more value of its name: `member` and repeated names become arrays in document order, others single fields |
| XmlDocuments.FieldsMean | packages/core/src/aws/cloudformation.ts:581-589 | a name of several children, and `member` in any case, stands for the array of their values, any other for the one value |
| XmlDocuments.ReadsBack | packages/core/src/aws/cloudformation.ts:523-595 | where names are words, attributes hold no `>`, end tags no white space, no start tag is missed and no child has an inherited name, every element inside a printed one, at any place of any string, is read back with its value and its end |
| XmlTags.ReadToItsEnd | packages/core/src/aws/cloudformation.ts:551-559 | an element with content is read up to its own end only if its name is a word and its end tag has no white space |
| XmlProlog.Unwraps | packages/core/src/aws/cloudformation.ts:483 | of a document only the root element is left: a declaration in front and white space around it are dropped, and nothing inside the element is taken for a declaration |
| XmlDocuments.BracketIsNotReadBack | packages/core/src/aws/cloudformation.ts:538-559 | an element with a `>` in its attributes is not read back, whatever its content |
| XmlDocuments.OwnTagsAreReadable | packages/core/src/aws/cloudformation.ts:538-559 | what is read back has readable tags, and its own closing tag is the one found |
| XmlDocuments.AddAllExactly | packages/core/src/aws/cloudformation.ts:571-589 | reading children one after the other gives their fields if and only if all their names are words and none is one every object answers to |
| XmlDocuments.ReadsBackExactly | packages/core/src/aws/cloudformation.ts:523-595 | every element inside a printed one is read back at its place, value and end, if and only if all tags are readable, the search misses no start tag and no child has a name every object answers to |
| XmlDocuments.DocumentReadExactly | packages/core/src/aws/cloudformation.ts:481-599 | the same of a whole document behind white space or a declaration |
| XmlDocuments.DocumentRoundTrip | packages/core/src/aws/cloudformation.ts:481-599 | a well-formed document behind white space or a declaration is recovered, if all tags are readable, no start tag is missed and no child has a name every object answers to |
| XmlLosses.LosesTheRest | packages/core/src/aws/cloudformation.ts:500-501 | when the first child has the name of its parent and white space other than a blank behind it, only that child is read: the value is right if and only if it is the only one |
| XmlLosses.LineBreakLosesContent | packages/core/src/aws/cloudformation.ts:500-501 | a concrete well-formed document that is not recovered, for a line break behind a tag name |
| XmlLosses.InheritedNameIsMixedIn | packages/core/src/aws/cloudformation.ts:582-586 | the values of a child with an inherited name come back in an array behind the inherited value |
| XmlLosses.InheritedNameDocumentIsMixed | packages/core/src/aws/cloudformation.ts:582-586 | a concrete document in which a child named "constructor" comes back behind an inherited value |
| XmlLosses.UnreadableTagEndsElsewhere | packages/core/src/aws/cloudformation.ts:538-559 | an element whose name is no word, or whose end tag has white space in it, is read up to its own end if and only if it is empty and its name begins with a word |
| XmlLosses.TextIsLost | packages/core/src/aws/cloudformation.ts:538-559 | with a text for its content it is read as nothing at all |
| XmlLosses.BracketInAttributeIsMisread | packages/core/src/aws/cloudformation.ts:538-559 | with a text for its content and a `>` in the attributes, what is left of these comes back in front of the text, or the empty text when a `/` stands in front of the `>`; neither is right |
| XmlLosses.TextInFrontIsRead | packages/core/src/aws/cloudformation.ts:527-531 | text is read up to the first tag, trimmed |
| XmlLosses.PlainTextIsItself | packages/core/src/aws/cloudformation.ts:597-598 | a response without a tag is its own text, trimmed; the empty object if nothing is left |
| XmlLosses.ClosingTagIsNothing | packages/core/src/aws/cloudformation.ts:534-536 | at a closing tag nothing is read |
| StackWaiter.WaitForStack | packages/core/src/aws/cloudformation.ts:266-328 | polls at most 360 times; every poll but the last leaves it open: a status that is not desired and has neither "FAILED" nor "ROLLBACK" in it; it ends with a desired status, with one that has, with the error of the describe call, or after 360 polls; what is reported is the feed of the fetches made |
| StackWaiter.NewEvents | packages/core/src/aws/cloudformation.ts:287-297 | one fetch reports, oldest first, the events after the last one seen, or the newest one if none was seen |
| StackWaiter.ReportEvents | packages/core/src/aws/cloudformation.ts:282-309 | a poll extends the feed and the remembered id, a failed fetch changes neither |
| StackWaiter.ReportedInOrder | packages/core/src/aws/cloudformation.ts:284-305 | events are reported in chronological order, each at most once |
| StackWaiter.FeedMeans | packages/core/src/aws/cloudformation.ts:287-305 | an event is reported if and only if some fetch shows it behind all events shown before; of the first fetch that shows any only the newest is |
| StackWaiter.NothingIsSkipped | packages/core/src/aws/cloudformation.ts:287-305 | the feed has every event from the first observed newest one up to the last observed one if and only if each fetch reached back to what had been seen |
| StackWaiter.WholeLogsReachBack | packages/core/src/aws/cloudformation.ts:288-292 | fetches that return the whole log reach back |
| PercentEncoding.EncodesBytes | packages/core/src/aws/signature.ts:683-685 | the two passes are the encoding of section 2.5 of RFC 3986 applied to the UTF-8 bytes |
| PercentEncoding.EncodingIsEncoded | packages/core/src/aws/signature.ts:683-685 | only unreserved characters and triples of `%` and two digits 0-9 or A-F are emitted, sections 2.1 and 2.3 of RFC 3986 |
| PercentEncoding.EncodingTellsTextsApart | packages/core/src/aws/signature.ts:683-685 | the encoding is decodable, so different texts have different encodings |
| PercentEncoding.UnreservedStay | packages/core/src/aws/signature.ts:683-685 | the unreserved characters of section 2.3 of RFC 3986, and no others, stand for themselves |
| PercentEncoding.TripleIsHex | packages/core/src/aws/signature.ts:684 | the digits of a triple are the byte in base 16 |
| PercentEncoding.Utf8 | packages/core/src/aws/signature.ts:684 | the bytes of a character are those of section 3 of RFC 3629 |
| QueryString.CanonicalQueryString | packages/core/src/aws/signature.ts:652-668 | cut at `&` and at the first `=`, the string gives the encoded parameters, key first, each as often as given, in the order of keys and then of values |
| QueryString.JoinTellsApart | packages/core/src/aws/signature.ts:667 | a joined query gives back its pairs |
| QueryString.CanonicalForm | packages/core/src/aws/signature.ts:652-668 | two parameter lists have the same canonical query string if and only if they are permutations of each other |
| SigningCache.CacheKeyTellsApart | packages/core/src/aws/signature.ts:759 | the cache key is injective when date, region and service contain no colon |
| SigningCache.CacheKeyPieces | packages/core/src/aws/signature.ts:759 | cut at its colons the cache key gives secret, date, region and service |
| SigningCache.CacheKeyIsUnique | packages/core/src/aws/signature.ts:759 | no other parameters have the cache key of the given ones if and only if these, secret included, contain no colon |
| SigningCache.CacheKeysCanCollide | packages/core/src/aws/signature.ts:759 | for any parameters with a colon there are others with the same cache key from which another signing key is derived |
| SigningCache.Signer.CalculateSignature | packages/core/src/aws/signature.ts:750-781 | when no caller uses colons the signature is made of six texts in this order: "AWS4" and the secret, date, region, service, "aws4_request", string to sign; in any case it is one for parameters with the same cache key; the cache stays sound and bounded |
| SigningCache.StoringStaysSound | packages/core/src/aws/signature.ts:770-777 | storing a derivation, with eviction, keeps every entry a derivation for its key and at most 100 entries |
| SigningCache.StoringForgetsTheOldest | packages/core/src/aws/signature.ts:770-777 | below 100 entries nothing is forgotten, from then on the oldest entry |
| SigningCache.SignatureRecords | packages/core/src/aws/signature.ts:765-780 | with primitives that write down what they are given, the uncached signature is the record of the six texts |
| SigningCache.EveryRunIsRight | packages/core/src/aws/signature.ts:787-819 | under any interleaving of calls, also when two both miss, a right system stays right: every entry is the derivation for its key, at most 100 entries, every signature made of the six texts of its own call |
| SigningCache.EveryReachableStateIsRight | packages/core/src/aws/signature.ts:787-819 | from an empty cache and calls not yet begun, any schedule leads only to states in which every signature returned is the uncached one and the cache holds at most 100 derivations |
| SigningCache.ThreeTurnsFinish | packages/core/src/aws/signature.ts:787-819 | whatever the other calls do, a call that gets three turns has its signature |
| Retries.MakeAWSRequest | packages/core/src/aws/signature.ts:847-918 | every attempt before the last ends in a listed status or in an error that is not about a failed response, and the last does not, or is the last one allowed; the caller gets the response of the last attempt if that succeeds, else its error, a timeout told as such, a failed response with status and text; the waits in between are given by the formula |
| Retries.EndsOnce | packages/core/src/aws/signature.ts:858-914 | whatever the network answers, there is one place for the search to end |
| Retries.FailuresAreMarked | packages/core/src/aws/signature.ts:893-907 | the error made for a failed response that could be read carries the mark that stops the retries |
| Retries.DelayRange | packages/core/src/aws/signature.ts:831-835 | a delay is at most the maximum and 1.3 times the exponential delay, and at least the latter unless the maximum cuts it off |
| Retries.DelayFormula | packages/core/src/aws/signature.ts:831-835 | a delay is the initial one, doubled with every attempt, with up to 30 percent more, cut off at the maximum |
| Retries.WaitIsBounded | packages/core/src/aws/signature.ts:831-835 | the waits before n retries add up to at most n times the maximum, and to at most 1.3 (2^n - 1) times the initial delay |
| CredentialProvider.Provider.Call | packages/core/src/aws/credentials.ts:365-394 | fresh cached credentials at once, else the refresh in flight, else a new one |
| CredentialProvider.Provider.Settle | packages/core/src/aws/credentials.ts:382-391 | a refresh that settles, well or not, leaves none in flight; only success changes the cache |
| CredentialProvider.Drive | packages/core/src/aws/credentials.ts:361-395 | any interleaving of callers, successes and failures is recorded, every call in order with its caller and time and every refresh that settles with its outcome, and is a history in the sense of the lemmas below |
| CredentialProvider.AtMostOneInFlight | packages/core/src/aws/credentials.ts:377-380 | at no time is more than one refresh in flight |
| CredentialProvider.SettledOnce | packages/core/src/aws/credentials.ts:382-391 | a refresh has one outcome, which all who wait for it get |
| CredentialProvider.JoinersAreInTime | packages/core/src/aws/credentials.ts:378-380 | whoever waits for a refresh came after its start and before its end |
| CredentialProvider.NextCallRefreshes | packages/core/src/aws/credentials.ts:388-391 | after a failure the next call without fresh credentials starts a new refresh |
| CredentialProvider.AnswersAreFresh | packages/core/src/aws/credentials.ts:367-375 | a cached answer is what the latest successful refresh fetched, and has no expiry or more than five minutes left |
| CredentialProvider.AnsweredExactlyWhenFresh | packages/core/src/aws/credentials.ts:367-380 | a call is answered at once if and only if the latest successful fetch has no expiry or more than five minutes left; else it waits for a refresh |
| CredentialsFile.ParseCredentialsFile | packages/core/src/aws/credentials.ts:75-129 | in terms of the lines alone: the answer comes from the first section of the profile that gives both keys something; each field is what the last line of the section with that key, up to white space and case, has behind its first `=`, trimmed; there is no answer if and only if there is no such section |
| CredentialsFile.AnswerIsFinal | packages/core/src/aws/credentials.ts:93-96 | returning at the header behind a complete section cannot miss a better answer |
| Topology.HighlightFor | packages/ui/src/topology.ts:306-329 | exactly the node, its stored neighbours and every node from which a route of links leads to it, also on cyclic links; nothing without an id |
| Topology.NeighboursMean | packages/ui/src/topology.ts:314-315 | the stored neighbours are those of the first node with the id |
| Topology.ClosedHasAllThatLead | packages/ui/src/topology.ts:319-327 | what is closed under going back along links has everything that leads into it |
| Topology.IncomingLinks | packages/ui/src/topology.ts:309-313 | the lists collected are the sources of the links to each target |
| RoutedEdges.MatchEdges | packages/ui/src/topology.ts:228-251 | the first edge with given ends takes the first link with them, the second the second, and none remains for further ones |
| RoutedEdges.MatchedMeans | packages/ui/src/topology.ts:228-251 | an edge gets the link with its ends that has as many such links in front of it as the edge has such edges, none if there are not that many |
| RoutedEdges.DroppedEdgesDoNotShift | packages/ui/src/topology.ts:225-235 | if links between different nodes have different keys and the layout keeps, in order, the links whose ends it resolves, every edge gets back the very link it was routed for |
| RoutedEdges.ShiftsExactlyOnClashes | packages/ui/src/topology.ts:225-235 | the matching is right whatever the layout drops, if and only if links between different nodes have different keys |
| RoutedEdges.ClearMeans | packages/ui/src/topology.ts:230 | keys are clear if no source, `->` and target of one link read like those of a link between other nodes |
| RoutedEdges.PlainSourcesAreClear | packages/ui/src/topology.ts:230 | which they have when no source has an arrow in its name |
| RoutedEdges.EndsMatchExactly | packages/ui/src/topology.ts:225-235 | whichever links the edges stand for, none is given a link between other nodes, if and only if links between different nodes have different keys |
| RoutedEdges.KeysTellApart | packages/ui/src/topology.ts:230 | the key tells ends apart when no source has an arrow in its name |
| RoutedEdges.ArrowsMislead | packages/ui/src/topology.ts:230-235 | with an arrow in a name, an edge is given the link of a dropped one |

## Left out

- XmlParser.AddChild: a child named `__proto__` replaces the prototype of the object in the source; the model treats it like the other inherited names, and the round trip excludes it.
- XmlElements.WellFormed: content is text alone or elements alone. Content that mixes the two, comments, processing instructions, CDATA sections and document type declarations are not modelled; entities are not decoded by the source and stay as they are.
- XmlDocuments.ReadsBackExactly: speaks of all elements inside; that a single value can be right although an element inside is not read to its end is shown, not characterised.
- Templates.GetsAttributeOf: the source also collects a first item of `Fn::GetAtt` that is not a string; such a value is no logical id and cannot be on a cycle, so it is not collected here.
- StackDiff.Get: properties set to `undefined`, `NaN`, and property names found on `Object.prototype` are not modelled; templates are JSON values.
- StackAnalysis.CheckIfReplacementRequired: a resource type that is the name of a member of `Object.prototype`, on which the source throws, is not modelled.
- StackAnalysis.IdentifyDangerousChanges: a warning is a risk and an id; its wording is not modelled.
- Suggestions.Similarity: real arithmetic in place of doubles, so rounding at the threshold is not modelled.
- Multipart.UploadParts: a progress callback that throws, an upload that never settles, and a rejection that nobody awaits yet are not modelled; after an abort, uploads still in flight are not followed any further. A negative `concurrency` would wait on an empty pool for ever and is excluded by its type.
- StackWaiter.WaitForStack: a callback that throws part-way through a poll is not modelled; in the source it makes the events of that poll come again.
- SigningCache.EveryRunIsRight: states the bound of 100 for the internal cache, which starts empty; a larger cache passed in by the caller keeps its size.
- QueryString.CanonicalQueryString: text is a sequence of Unicode scalar values, as `URLSearchParams` yields it; a lone surrogate, on which `encodeURIComponent` throws, cannot be written.
- Topology.HighlightFor: takes the geometry as given; the layout is left to its library, and the compaction of layers is a sort of distinct numbers.
- Parameters.FlattenParams: parameters are JSON values, so `undefined` is not modelled; the body of the outer loop is a method of its own.
- Object key order: integer-like keys come first in JavaScript objects; any order of keys is allowed here.
- `encodePath`, the canonical headers, `emptyAndDeleteBucket`: short loops and case splits that would add easier members.
- `validateReferences` and the other template checks, `formatDiff`, contextual help and autocompletion: presentation or one test per field.
- SHA-256, HMAC, base64, `fetch`, timers, metadata services and file access: outside the model, their results are parameters.
