# BEL Commons core, modelled in Dafny

This project models the core of BEL Commons (pybel-web). That core covers:

- the persisted **query forest**: assemblies of networks, and query rows that store a Seeding and a Pipeline as text. Their parent links let a query be forked and let a delete cascade;
- the **record predicates** of `models.py`: report status, project and experiment rights, omic source names and data lists, votes and comments on edges, and network overlaps;
- the **experiment comparison table** (`get_dataframe_from_experiments`), its clustering step, and the filtered experiment listing;
- the **decision logic of the background tasks**: the BEL upload parser, the parse-by-URL task and the analysis task;
- the **bulk loaders**: CBN path arithmetic, the directory blacklist, the NeuroMMSig sample selection and the Bio2BEL manager guards.

Everything is written as pure functions over immutable datatypes:

- Rows live in id-keyed maps whose counters stand in for the database's autoincrement keys.
- The outside world arrives as parameters: the parser's outcome, the insert's outcome, directory listings, existence tests, the clock and the scoring function.
- Values that the source tests for truth are of an abstract type, and the caller supplies the test as `truthy`.

| file | module | what it holds |
|---|---|---|
| wrappers.dfy | Wrappers | `Option` and `Result` |
| filters.dfy | Filters | order-preserving filtering of a sequence |
| text.dfy | Text | suffix and prefix tests, decimal rendering and its inverse, code-point string order |
| sorting.dfy | Sorting | a stable insertion sort over any total preorder |
| codec.dfy | Codec | the stored text of a Seeding or Pipeline, with a proved round trip |
| users.dfy | Users | users, projects, project rights |
| reports.dfy | Reports | the upload report and its status predicates |
| experiments.dfy | Experiments | omics, experiments, source dictionaries, data lists, experiment rights |
| queries.dfy | Queries | assemblies, query rows, factories, forks, cascade delete |
| annotations.dfy | Annotations | edge votes and comments, their cascade, network overlaps |
| comparison.dfy | Comparison | the comparison table, the aligned table, clustering, the listing |
| worker.dfy | Worker | the upload parser, parse-by-URL, the analysis task |
| loaders.dfy | Loaders | the bulk-loading helpers |

The library that owns the real Seeding and Pipeline encodings is not part of this model. `Codec` therefore fixes a concrete, lossless encoding in its place: a bracketed list of netstrings. Like the JSON the library writes, it never encodes an empty list as empty text. Every property of the stored columns is proved against that encoding.

## Model

| member | source | states |
|---|---|---|
| Codec.Dumps | src/pybel_web/models.py:704-706 | stored text is never empty, so even an empty list reads back as set, not as unset |
| Codec.LoadsDumps | src/pybel_web/models.py:704-726 | text written by `set_seeding`/`set_pipeline` reads back through `get_seeding`/`get_pipeline` as exactly the list written |
| Codec.DumpsInjective | src/pybel_web/models.py:704-726 | two different operation lists never share stored text |
| Queries.ReadStored | src/pybel_web/models.py:708-726 | an unset or empty column reads as unset; otherwise it reads as the decoded list, or as malformed exactly when decoding fails |
| Queries.ReadStoredDumps | src/pybel_web/models.py:704-714 | a column written from a list reads back as that list |
| Queries.OwnerOf | src/pybel_web/models.py:610-623 | an owner is recorded exactly when a user is given and logged in, and it is that user |
| Queries.NetworkIds | src/pybel_web/models.py:739-747 | a query's network ids are its assembly's networks in order; it fails exactly when the query has no stored assembly |
| Queries.FromNetworks | src/pybel_web/models.py:797-807 | adds exactly one fresh assembly and one fresh root query and leaves every existing row unchanged; the query's networks are exactly the given ones, both rows carry the logged-in owner, and seeding and pipeline are unset |
| Queries.FromNetwork | src/pybel_web/models.py:819-827 | a fresh query whose networks are exactly the one network |
| Queries.FromProject | src/pybel_web/models.py:809-817 | a fresh query whose networks are the project's, in the project's order |
| Queries.FromQuery | src/pybel_web/models.py:829-839 | a fresh query over the resolved networks whose stored columns read back as exactly the library query's seeding and pipeline |
| Queries.FromQueryArgs | src/pybel_web/models.py:841-852 | a fresh query over the resolved networks, with every existing row unchanged; a missing seeding or pipeline is stored as an empty list, which reads back as empty, not as unset |
| Queries.ToPyQuery | src/pybel_web/models.py:728-737 | a cached object is returned unchanged. Otherwise the result succeeds exactly when the assembly resolves and neither column is malformed; it is built from the network ids and the decoded columns (unset counts as empty) and is then cached |
| Queries.BuildAppended | src/pybel_web/models.py:854-873 | succeeds exactly when the query object can be built. The child points to the parent and shares its assembly, owner and seeding text; its pipeline reads back as the parent's steps plus the new one. The parent's stored row is unchanged and only its cache grows |
| Queries.AddSeedNeighbors | src/pybel_web/models.py:875-890 | the same, with a neighbours seed appended to the seeding; the pipeline text is shared |
| Queries.GetAssemblyQuery | src/pybel_web/models.py:693-702 | the child points to the parent, shares its assembly and owner, and has neither seeding nor pipeline |
| Queries.BuildAppendedFromStore | src/pybel_web/models.py:854-873 | a freshly loaded row whose assembly is stored and whose columns decode can always be forked, and the child's pipeline is the stored steps followed by exactly the new step, while its seeding reads as the parent's |
| Queries.AddSeedNeighborsFromStore | src/pybel_web/models.py:875-890 | such a row can always be forked with a neighbours seed, and the child's seeding is the stored seeds followed by exactly the neighbours seed, while its pipeline reads as the parent's |
| Queries.RepeatedForksAccumulate | src/pybel_web/models.py:862-869 | because the step goes into the cached object, a second fork of the same object carries both steps although the stored row never changed |
| Queries.InsertQuery | src/pybel_web/models.py:666-688 | a row is stored under a fresh id; existing rows and assemblies are untouched, and the store stays valid |
| Queries.CascadeIds | src/pybel_web/models.py:686-688 | one ascending pass finds exactly the stored queries whose parent chain reaches the target |
| Queries.SurvivorsValid | src/pybel_web/models.py:686-688 | removing every row whose chain reaches the target leaves no dangling parent link |
| Queries.DeleteQuery | src/pybel_web/models.py:686-688 | deleting a query removes exactly the target and its descendants; every other row survives unchanged, and so do the assemblies |
| Queries.DeleteChainScenario | tests/test_manager.py:127-163 | in a chain q1 ← q2 ← q3 with an independent q4, deleting q1 leaves only q4 |
| Users.HasProjectRights | src/pybel_web/models.py:525-531 | only a logged-in user has rights; a logged-in administrator has rights to every project, and anyone else only to projects that list their id |
| Reports.Stalled | src/pybel_web/models.py:271-277 | a report is stalled exactly when it is older than three hours at the given time |
| Reports.IsDisplayable | src/pybel_web/models.py:256-259 | displayable implies a known node count below 100; a count of zero is never displayable, and any count from 1 to 99 is |
| Reports.StatusOf | src/pybel_web/models.py:295-305 | running iff incomplete; failed iff `completed` is false; done iff finished with a network; cancelled iff finished without one |
| Experiments.PrettySourceName | src/pybel_web/models.py:71-81 | a null name has no pretty name, because the suffix test raises. A name ending in `.tsv` loses exactly that suffix; otherwise one ending in `.csv` loses that suffix; any other name is unchanged |
| Experiments.PrettySourceNameStripsOnce | src/pybel_web/models.py:71-81 | only one extension is removed: `a.csv.tsv` becomes `a.csv` |
| Experiments.SourceName | src/pybel_web/models.py:187-190 | an experiment has a source name exactly when its data set has one |
| Experiments.SourceDict | src/pybel_web/models.py:91-107 | the keys are exactly the non-null genes, and each gene maps to the value of its last row |
| Experiments.DataList | src/pybel_web/models.py:176-182 | keeps exactly the entries whose flag is true, in stored order |
| Experiments.DataListConcat | src/pybel_web/models.py:176-182 | the filter distributes over concatenation, so with `DataListSingleton` it keeps order and multiplicity |
| Experiments.DataListSingleton | src/pybel_web/models.py:176-182 | a single entry is kept exactly when its flag is true |
| Experiments.DumpResults | src/pybel_web/models.py:164-170 | stores exactly the given scores, marks the experiment complete, and changes nothing else |
| Experiments.DumpedDataList | src/pybel_web/models.py:164-182 | after dumping, the data list read back holds exactly the flagged scores |
| Experiments.HasExperimentRights | src/pybel_web/models.py:533-539 | true iff the experiment is public, the user is an administrator, or the owners' e-mails match. It is undefined (the source raises) exactly when the experiment is private, the user is not an administrator and the experiment has no owner |
| Annotations.VotesOff | src/pybel_web/models.py:899-901 | the votes kept when an edge goes are exactly those on other edges |
| Annotations.VotesOffKeepsUnique | src/pybel_web/models.py:899-901 | dropping an edge's votes keeps the remaining votes unique per (edge, user) |
| Annotations.VotesOffIsKeep | src/pybel_web/models.py:899-901 | dropping an edge's votes is the generic order-preserving filter with the test "on another edge" |
| Annotations.VotesOffConcat | src/pybel_web/models.py:899-901 | dropping an edge's votes distributes over concatenation, so with `VotesOffSingleton` it keeps order and multiplicity |
| Annotations.VotesOffSingleton | src/pybel_web/models.py:899-901 | a single vote is kept exactly when it is on another edge |
| Annotations.CommentsOff | src/pybel_web/models.py:940-943 | the comments kept when an edge goes are exactly those not on it |
| Annotations.CommentsOffIsKeep | src/pybel_web/models.py:940-943 | dropping an edge's comments is the generic order-preserving filter with the test "not on this edge" |
| Annotations.CommentsOffConcat | src/pybel_web/models.py:940-943 | dropping an edge's comments distributes over concatenation |
| Annotations.CommentsOffSingleton | src/pybel_web/models.py:940-943 | a single comment is kept exactly when it is not on the edge |
| Annotations.DeleteEdge | src/pybel_web/models.py:893-950 | deleting an edge removes exactly its votes and comments; the remaining votes and comments are the others in their stored order, everything else stays, and the store stays valid |
| Annotations.DeleteEdgeScenario | tests/test_manager.py:72-125 | the store's test: after the edge is deleted, its votes and comments are gone and the other edge's remain |
| Annotations.FindVote | src/pybel_web/models.py:518-523 | finds the position of the user's vote on the edge, or none exactly when there is no such vote |
| Annotations.CastVote | tests/test_manager.py:57-68 | votes stay unique per (edge, user). An existing vote keeps its edge and user and gets the new flag and a change time, and every other vote is unchanged; otherwise exactly one vote is appended, with no change time |
| Annotations.CastVoteTwice | tests/test_manager.py:57-68 | the first cast creates a vote without a change time; the second updates that same vote and sets its change time |
| Annotations.BuildOverlap | src/pybel_web/models.py:985-997 | the stored pair has the larger id on the left, holds the same two networks, and keeps the overlap value |
| Annotations.BuildOverlapSymmetric | src/pybel_web/models.py:985-997 | the stored row does not depend on the order of the two networks |
| Sorting.InsertionSort | src/bel_commons/views/experiment_service.py:324 | the result is ordered by the key and is a permutation of the input |
| Comparison.MediansForDistinct | src/bel_commons/views/experiment_service.py:324-326 | in a result without repeated nodes, a node has one median exactly when it occurs, and it is that entry's position 3 |
| Comparison.MediansForPermutation | src/bel_commons/views/experiment_service.py:324 | sorting an experiment's entries does not change any node's medians |
| Comparison.FlaggedEntries | src/pybel_web/models.py:176-182 | exactly the flagged entries of the result; no repeated nodes appear if the result has none |
| Comparison.SortedData | src/bel_commons/views/experiment_service.py:324 | the flagged entries, reordered by node key |
| Comparison.Contributing | src/bel_commons/views/experiment_service.py:318-322 | exactly the experiments that have a result, in input order |
| Comparison.ContributedFits | src/bel_commons/views/experiment_service.py:318-327 | a node receives at most one value per contributing experiment |
| Comparison.RecordAllGet | src/bel_commons/views/experiment_service.py:324-326 | recording an experiment's entries appends each node's median to that node's list and touches no other node |
| Comparison.SortedMedians | src/bel_commons/views/experiment_service.py:324-326 | visiting the entries in sorted order records the same per-node medians as the stored order |
| Comparison.AccumulateGet | src/bel_commons/views/experiment_service.py:316-327 | the dictionary built over all experiments holds, per node, its contributions in experiment order |
| Comparison.AccumulatedFromEmpty | src/bel_commons/views/experiment_service.py:316-327 | starting from the empty dictionary, each node's list is exactly its reference contributions |
| Comparison.ColumnLabelInjective | src/bel_commons/views/experiment_service.py:322 | experiments with different ids get different column labels |
| Comparison.Header | src/bel_commons/views/experiment_service.py:314-322 | `Type`, `Namespace`, `Name`, then one label per contributing experiment, in order |
| Comparison.Pad | src/bel_commons/views/experiment_service.py:333-334 | a short row keeps its values in front and is filled at the end |
| Comparison.Rows | src/bel_commons/views/experiment_service.py:328-334 | one row per dictionary key, in insertion order, holding the key's values filled to the given width |
| Comparison.NodeOrder | src/bel_commons/views/experiment_service.py:316-330 | the dictionary's keys: distinct, and exactly the flagged nodes |
| Comparison.PaddedTable | src/bel_commons/views/experiment_service.py:314-334 | the header is as above; row nodes are distinct; a node has a row exactly when some experiment flags it; its values are its contributions in experiment order, filled at the end |
| Comparison.NarrowKeys | src/bel_commons/views/experiment_service.py:328-333 | a non-empty dictionary without a full-width list means some node has a row and every node has fewer values than there are labelled experiments |
| Comparison.ComparisonTable | src/bel_commons/views/experiment_service.py:305-335 | fails exactly when a labelled experiment has no source name, or when some node has a row but none has a value from every labelled experiment (the DataFrame's column-count error). Otherwise the header is as above, row nodes are distinct, a node has a row exactly when some experiment flags it, and its values are its contributions in experiment order, filled at the end |
| Comparison.TableRowFor | src/bel_commons/views/experiment_service.py:328-334 | when the table builds, every flagged node has a row holding exactly its filled contributions |
| Comparison.WitnessSetup | src/bel_commons/views/experiment_service.py:318-327 | on the second finding's input, node A receives 5 and 6 and node B receives only 7 |
| Comparison.WitnessBasics | src/bel_commons/views/experiment_service.py:318-324 | on the second finding's input, both experiments contribute a named column and filtering keeps every entry |
| Comparison.WitnessMedians | src/bel_commons/views/experiment_service.py:324-326 | experiment 2 of that input records 6 for node A and 7 for node B |
| Comparison.TwoColumnHeader | src/bel_commons/views/experiment_service.py:314-322 | two named experiments with results give the key columns followed by their two labels, in order |
| Comparison.FullNodeBuilds | src/bel_commons/views/experiment_service.py:328-333 | when every data set is named and some node has a value from every labelled experiment, the table builds and each flagged node's row is its filled contributions |
| Comparison.SingleValueRow | src/bel_commons/views/experiment_service.py:328-334 | in a two-column table that builds, a node with a single value gets that value in the first column and the fill value in the second, whichever experiment supplied it |
| Comparison.MisalignedColumn | src/bel_commons/views/experiment_service.py:324-334 | witness for the second finding: node B's row is `[7, 0]`, so experiment 2's value sits under experiment 1's label |
| Comparison.MedianIn | src/bel_commons/views/experiment_service.py:324-325 | none exactly when the node is absent; otherwise that entry's median |
| Comparison.AlignedRow | src/bel_commons/views/experiment_service.py:318-334 | column j holds experiment j's median for the node, or the fill value exactly when experiment j did not flag it |
| Comparison.AlignedRows | src/bel_commons/views/experiment_service.py:328-334 | one row per dictionary key, in the source's key order, with each value in its own experiment's column |
| Comparison.AlignedTable | src/bel_commons/views/experiment_service.py:305-335 | the corrected table fails only for a missing source name; it has the same header and one row per flagged node, with distinct nodes and each value in its own experiment's column; whenever the source's table builds, its row nodes are the same in the same order |
| Comparison.AlignedRowFor | src/bel_commons/views/experiment_service.py:318-334 | when every data set is named, the corrected table builds and each flagged node has its aligned row |
| Comparison.WitnessAlignedRow | src/bel_commons/views/experiment_service.py:318-334 | on the second finding's input, node B's aligned row is `[0, 7]` |
| Comparison.AlignedColumn | src/bel_commons/views/experiment_service.py:318-334 | on the second finding's input, the corrected table builds and node B's row is `[0, 7]`, with the value under its own experiment's label |
| Comparison.DisjointSetup | src/bel_commons/views/experiment_service.py:318-327 | when experiment 1 flags only A and experiment 2 flags only B, both get a column and no node receives two values |
| Comparison.DisjointAlignedRow | src/bel_commons/views/experiment_service.py:318-334 | on the third finding's input, node B's aligned row is `[0, 7]` |
| Comparison.RaggedTableRaises | src/bel_commons/views/experiment_service.py:328-333 | witness for the third finding: on that input the source's table fails with a column-count mismatch |
| Comparison.AlignedTableBuilds | src/bel_commons/views/experiment_service.py:318-334 | on that input the corrected table builds, and node B's row is `[0, 7]` |
| Comparison.Tagged | src/bel_commons/views/experiment_service.py:346 | each row is paired with its cluster label plus one |
| Comparison.Cluster | src/bel_commons/views/experiment_service.py:341-347 | adds a `Group` column; the rows are a permutation of the tagged rows, with groups between 1 and k in non-decreasing order |
| Comparison.Matching | src/bel_commons/views/experiment_service.py:94-100 | keeps exactly the experiments that pass the optional query and omic filters |
| Comparison.MatchingIsKeep | src/bel_commons/views/experiment_service.py:94-100 | the listing filter is the generic order-preserving filter with the combined query and omic test |
| Filters.KeepConcat | src/bel_commons/views/experiment_service.py:94-100 | filtering a concatenation filters each part, in order |
| Comparison.MatchingConcat | src/bel_commons/views/experiment_service.py:94-100 | the filter distributes over concatenation, so with `MatchingSingleton` it keeps order and multiplicity |
| Comparison.MatchingSingleton | src/bel_commons/views/experiment_service.py:94-100 | a single experiment is kept exactly when it passes the filters |
| Comparison.ViewExperiments | src/bel_commons/views/experiment_service.py:89-106 | the listing is a permutation of the matching experiments, newest first |
| Worker.DefaultEntries | src/pybel_web/celery_worker.py:183-192 | exactly the header entries that still hold a template placeholder, in document order |
| Worker.DefaultEntriesConcat | src/pybel_web/celery_worker.py:183-192 | the placeholder filter distributes over concatenation |
| Worker.DefaultEntriesSingleton | src/pybel_web/celery_worker.py:183-192 | a single entry is kept exactly when it holds a placeholder |
| Worker.DefaultEntriesEmpty | src/pybel_web/celery_worker.py:183-192 | no placeholder entries exactly when no header entry holds a placeholder |
| Worker.DictRepr | src/pybel_web/celery_worker.py:183-192 | the rendered placeholder dictionary is braced text |
| Worker.Render | src/pybel_web/celery_worker.py:160-252 | every message is non-empty text, except the duplicate message, which is the template applied to name and version |
| Worker.SameUser | src/pybel_web/models.py:541-545 | users are equal exactly when their e-mails match; comparing a user with no user raises |
| Worker.Finish | src/pybel_web/celery_worker.py:140-158 | mailing the outcome raises exactly when mail is configured and the report has no user; otherwise the task exits early, recording the rendered message on the report and leaving every other field alone |
| Worker.Validate | src/pybel_web/celery_worker.py:175-192 | a missing name is reported first, then a missing version, then placeholder metadata; anything else passes |
| Worker.OnDuplicate | src/pybel_web/celery_worker.py:194-223 | crashes without an existing report or when the user comparison raises. The same uploader is a duplicate failure. A different content hash is a duplicate failure when mail is configured and a crash when it is not. An uploader already listed on the network crashes, since the user-network table keys on the pair; otherwise the uploader is added to the network's users, and the report records the rendered "granted rights" message with every other field unchanged |
| Worker.OnInsert | src/pybel_web/celery_worker.py:235-271 | an integrity error, a locked database and any other store error each end with their own failure message; success marks the report completed, unless mailing it raises |
| Worker.AsyncParser | src/pybel_web/celery_worker.py:129-271 | each parse error gives its own early exit; a parsed graph is validated, then checked for duplicates, then inserted |
| Worker.NameCheckedBeforeVersion | src/pybel_web/celery_worker.py:175-181 | a graph lacking both name and version is reported for its missing name |
| Worker.DefaultMetadataRejected | src/pybel_web/celery_worker.py:183-192 | a placeholder in the header stops the upload before the duplicate check and the insert |
| Worker.GrantAppendsOnce | src/pybel_web/celery_worker.py:213-223 | granting rights to an uploader not yet listed adds exactly one entry for them and changes no other user's count |
| Worker.MailWithoutUserCrashes | src/pybel_web/celery_worker.py:140-158 | with mail configured and no uploader, every path of the upload task raises |
| Worker.ExitsLeaveMessage | src/pybel_web/celery_worker.py:152-271 | every early exit leaves a message and keeps `completed`; only a successful upload sets `completed` to true, and it keeps the message |
| Worker.EarlyExitSettles | src/pybel_web/models.py:261-270 | a fresh report that ends in an early exit is neither running nor failed |
| Worker.ParseByUrl | src/pybel_web/celery_worker.py:107-125 | fetch failure and insert failure give their own messages; otherwise the result is the new network's id |
| Worker.RunCmpa | src/pybel_web/celery_worker.py:274-320 | stores the scores of the omic's gene map and marks the experiment complete; nothing else changes |
| Loaders.DropLast | src/pybel_web/resources/load_networks.py:146 | Python's `s[:-n]`: the last n characters go, and a shorter string becomes empty |
| Loaders.GpickleFor | src/pybel_web/resources/load_networks.py:145-146 | the path minus its last four characters, plus `.gpickle` |
| Loaders.GpickleForJgf | src/pybel_web/resources/load_networks.py:145-146 | `x.jgf` maps to `x.gpickle` |
| Loaders.GpickleForInjective | src/pybel_web/resources/load_networks.py:145-146 | different `.jgf` paths never share a pickle path |
| Loaders.Join | src/pybel_web/resources/load_networks.py:142 | the joined path ends with the name; an absolute name replaces the directory, and otherwise the path starts with the directory |
| Loaders.JgfEntries | src/pybel_web/resources/load_networks.py:140-141 | exactly the listing entries ending in `.jgf` |
| Loaders.JgfEntriesConcat | src/pybel_web/resources/load_networks.py:140-141 | the filter keeps listing order |
| Loaders.IterJgf | src/pybel_web/resources/load_networks.py:139-142 | one joined path per `.jgf` entry, in listing order |
| Loaders.IterJgfPickles | src/pybel_web/resources/load_networks.py:157-158 | each yielded path's pickle lies in the same directory, next to the document |
| Loaders.KeptMembership | src/pybel_web/resources/load_networks.py:55-58 | a graph is uploaded exactly when it is not on a non-empty blacklist |
| Loaders.KeptAll | src/pybel_web/resources/load_networks.py:56 | a missing or empty blacklist uploads everything |
| Loaders.UploadPickles | src/pybel_web/resources/load_networks.py:50-61 | the uploaded graphs are exactly those not blacklisted, in repository order |
| Loaders.UploadBelDirectory | src/pybel_web/resources/load_networks.py:79-92 | as the source is written: nothing happens without a directory; a blacklist of the wrong type is rejected; otherwise every graph is uploaded |
| Loaders.BlacklistIgnored | src/pybel_web/resources/load_networks.py:79-92 | witness for the first finding: `alzheimers` is uploaded despite being blacklisted |
| Loaders.UploadBelDirectoryForwarding | src/pybel_web/resources/load_networks.py:79-92 | the corrected upload: no blacklisted graph is uploaded |
| Loaders.BlacklistForwarded | src/pybel_web/resources/load_networks.py:228-233 | the corrected upload skips `alzheimers` |
| Loaders.SelectSamplesMembership | src/pybel_web/resources/load_networks.py:116-120 | a subgraph is selected exactly when its name is one of the four sample names |
| Loaders.Relabel | src/pybel_web/resources/load_networks.py:124-128 | prefixes the name, sets the authors, copies version and license from the parent graph, and keeps the content |
| Loaders.RelabelInjective | src/pybel_web/resources/load_networks.py:125 | different subgraphs get different network names |
| Loaders.UploadNeurommsig | src/pybel_web/resources/load_networks.py:95-136 | nothing happens without the directory; it fails exactly when neither source file exists; otherwise each selected subgraph is relabelled and pickled under its own name |
| Loaders.UploadedSampleNames | src/pybel_web/resources/load_networks.py:116-134 | every uploaded network is named after one of the four samples |
| Loaders.UploadWithManager | src/pybel_web/resources/load_networks.py:196-218 | a missing manager or a non-manager does nothing; an unpopulated manager is populated; a graph is inserted exactly when the manager can produce one |

## Left out

- Query.run and Assembly union: running a query against the graph store is library code outside this model.
- Query JSON helpers (`to_json`, `seeding_to_json`, `pipeline_to_json`): presentation only.
- The Seeding and Pipeline library encodings are replaced by the concrete `Codec` encoding, because the library is not part of this model.
- The heat-diffusion scoring in `run_cmpa`: the scoring function is a parameter of `Worker.RunCmpa`.
- Worker.RunCmpa: models the transition the task is meant to make, not the code as written. As written, `run_cmpa` reads `source`, `gene_column` and `data_column` from the experiment (`celery_worker.py` lines 288-291), but those are columns of the omic (`models.py` lines 57-60), so the task raises before it stores anything. The model reads the omic's gene map instead. Two later raises are also left out, because both come after the commit at line 303 and so leave the stored state as modelled: building the completion message with a null omic source name (line 309, through `models.py` lines 187-190 and 78), and mailing an experiment without a user when mail is configured (line 316).
- Rounding to four decimals and min-max normalisation in the comparison table: both are floating-point operations.
- K-means: the cluster labels are an input of `Comparison.Cluster`.
- Comparison.Cluster: pandas' `sort_values` is not a stable sort, so the contract states only permutation and group order, not where equal groups end up.
- Sending mail, logging, and session commit and rollback in the background tasks are side effects and are left out. Whether mail is configured is an input, and the two ways mail makes the upload task raise are modelled: reading the e-mail of a report that has no user (lines 140-150 of `celery_worker.py`), and the notice on a hash mismatch, which uses the mail extension even when it is not configured (lines 204-215).
- Citation enrichment in the upload parser (lines 225-233): its exceptions are swallowed, so it cannot change the outcome.
- The "Problem with reporting service" branch (lines 256-264): it only assigns tuples to attributes, which cannot raise the errors it catches.
- Queries.DeleteQuery: experiment rows are not part of the query store. An experiment's `query_id` is a non-nullable foreign key whose back reference does not cascade (`models.py` lines 143-144), so deleting a query that still has experiments, or whose removed descendants do, makes the store reject the delete. The contract describes only deletes in which no removed query has experiments.
- Worker.OnInsert: the success path assumes a database driver that accepts the node, edge and warning counts as written. Lines 257-259 of `celery_worker.py` assign each count as a one-element tuple (note the trailing commas) to an integer column, and the commit at line 269 writes them together with `completed`. A driver that cannot bind a tuple, such as sqlite3, raises at that commit, after the success mail, and the report is never marked completed.
- The node, edge and warning counts written to the report on success: they are not read by anything modelled here.
- Pickling and blob hashing: whether the two hashes match is a boolean input of `Worker.OnDuplicate`.
- The integrity-error message template is defined in `constants.py`, which is not part of this model, so it is a parameter `duplicate`.
- `str(network)` in the duplicate and rights messages is given as input text.
- Worker.DictRepr: Python's `repr` escapes quotes inside keys and values; the model renders texts without quotes, so only the braces are stated.
- Worker.ExitsLeaveMessage: assumes the external duplicate template never yields empty text.
- Annotations.CastVote: `get_or_create_vote` lives in a module that is not part of this model, so its contract follows what the repository's test expects. A new vote has no change time only until it is flushed: the column default (models.py:908) then fills in the insert time. The model describes the unflushed object.
- The upload parser does not set the report's network, so `Worker.AsyncParser` leaves it as it was.
- The wall clock is passed as an integer count of microseconds.
- Directory creation, writing pickles and writing the manifest in the loaders.
- `upload_jgf_directory`, `load_cbn`, `load_bio2bel` and `load_bms`: they only wire the modelled helpers to fixed directories and managers.
- Graph content is an abstract type: `get_subgraphs_by_annotation`, BEL parsing and `strip_annotations` are library code.

## Findings

| source | as written | input that shows it | evidently intended | confidence | as-written member | corrected member |
|---|---|---|---|---|---|---|
| src/pybel_web/resources/load_networks.py:91 | `upload_bel_directory` checks the type of its blacklist but calls `upload_pickles` without passing it on | `load_bms` calls it with the blacklist `['alzheimers']` on a directory that holds a graph named `alzheimers`: that graph is uploaded | blacklisted graphs are skipped | high, not executed | Loaders.BlacklistIgnored | Loaders.BlacklistForwarded |
| src/bel_commons/views/experiment_service.py:326-334 | each node's list holds only the medians of the experiments that flagged it, and the DataFrame fills those lists from the left | experiment 1 flags node A with 5; experiment 2 flags A with 6 and B with 7: the table builds, and B's row is `[7, 0]`, so 7 appears under experiment 1's label and experiment 2's column holds 0 | each value sits in the column of the experiment it came from | medium, not executed | Comparison.MisalignedColumn | Comparison.AlignedColumn |
| src/bel_commons/views/experiment_service.py:328-333 | the rows are ragged lists, which the DataFrame widens only to the longest one, so the constructor raises when that is narrower than the header | experiment 1 flags only node A and experiment 2 flags only node B: every row has one value, the header has two experiment columns, and the table fails | a table whenever there is data, with the fill value in cells no experiment supplied | medium, not executed | Comparison.RaggedTableRaises | Comparison.AlignedTableBuilds |
