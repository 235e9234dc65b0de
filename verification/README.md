# RestPose in Dafny

RestPose is a search server: it takes JSON documents over HTTP, indexes them into Xapian
databases, keeps hierarchies of categories (taxonomies) for them, and answers searches.
This project models the parts of it whose correctness spans many functions, and proves
what they are for. `dafny verify dfyconfig.toml` checks all of it.

**Taxonomies, and documents that follow them.** A taxonomy stores, for each category, its
parents, children, ancestors and descendants, and updates all four in place. The model
shows that after any run of edits the four are exactly what the parent links imply, that
the set of modified names a call reports is exactly the set of categories it altered, and
that the graph stays free of loops (`Taxonomies`, against `TaxonomySpec` and
`ParentGraph`). Documents carry a term for each category they are in and for each ancestor
of those. The model shows that repairing the documents of modified categories leaves every
stored document with exactly the terms that indexing it afresh would give (`Documents`,
`Indexing`, `Collections`), that category queries then mean what they say
(`CategoryQueries`), and that all this holds in every state of every run of the two-stage
pipeline, whatever the interleaving of the processing threads and the indexing thread
(`Pipeline`, `RunQueries`, `Interleavings`, `Server`).

**Transformations and encodings.** Field mappings applied in one walk over a document
(`Mappings`, `JsonWalk`); sort keys (`SortKeys`); n-gram profiles (`NGramProfiles`);
portable floating point numbers (`Doubles`); variable-length lengths and what is built of
them (`Lengths`, `Containers`); the six-byte coordinates, coordinate lists and
bounding boxes (`Geo`, `Coordinates`, `BoundingBox`).

**State machines.** Documents spread over database fragments (`Fragments`), ownership of
open collections (`CollectionPools`), and the account of errors that checkpoints give
(`CheckPoints`).

Conventions: an exception is a result (`ok`, `None`, `Bad`, `Failed`); C++ sets and maps
are Dafny sets and maps, iterated in order where the order matters and in any order where
it does not; documents are sets of terms; floating point numbers are reals, with a proof
for the double encoding that nothing in it is rounded.

Where the code does not do what its comments or its callers expect, the model follows the
code and gives the exact condition:

- The loop that copies a value into a forward sort key does not step past a zero byte, so
  it ends exactly for values without one (`SortKeys.ForwardLoopEnds`).
- A bounding box can lose points inside it, although the documentation promises all of
  them: for any edges, exactly if some first byte between those of its corners, or that of
  a pole between its edges, does not pass (`BoundingBox.BoundingBoxExact`). Where the
  corners fit sixteen bits that is so exactly if the eastern edge is rounded to the
  meridian of zero, or a pole is between the edges, neither edge is at one, and the box
  begins too far east (`BoundingBox.RegularExact`).
- Reading a coordinate list ends exactly when its length is not one over a multiple of six
  (`Coordinates.ListLoopEnds`), and coordinates out of range are dropped silently when it
  is written (`Coordinates.CoordsRoundTrip`).
- Lengths of 2^35 + 255 and more are written but refused when read
  (`Lengths.LengthRoundTrip`).
- Positions of n-grams leave the vector they are written to exactly when an n-gram is
  repeated (`NGramProfiles.PositionsFit`).
- A handle given out before its collection was deleted may be given out again exactly if
  it is a writer that was still out at that time (`CollectionPools.ReturnsExactly`).
- The schema accepts a group shared by category fields of two taxonomies, or by a category
  field and one of another type, which `docs/collections.rst` advises against. Terms of
  the other field survive a repair exactly if those that look like ancestor terms name
  ancestors that are due (`Documents.SharedGroupKeeps`), and a document repaired for one
  taxonomy is up to date for the other exactly if both give its categories the same
  ancestors (`Documents.SharedTaxonomiesKeep`). All results on documents, queries and the
  pipeline are for groups that are not shared so.

## Model

| member | source | states |
|---|---|---|
| `ParentGraph.AboveAddLink` | src/jsonxapian/taxonomy.cc:247-271 | One more parent link makes reachable exactly the pairs joined through it |
| `ParentGraph.AddLinkAcyclic` | src/jsonxapian/taxonomy.cc:231-245 | A new link closes a loop if and only if the child was already reachable from the parent |
| `ParentGraph.AboveWithout` | src/jsonxapian/taxonomy.cc:197-214 | Removing a category only affects pairs with that category between them |
| `ParentGraph.ReverseReach` | src/jsonxapian/taxonomy.cc:132-151 | Descendants are ancestors seen from the other end |
| `ParentGraph.WeightingExists` | src/jsonxapian/taxonomy.cc:119-128 | Every finite acyclic graph has weights that pay for pushing a category again each time another link to it is met, which is why the recalculation loops end |
| `TaxonomySpec.ApplyDag` | src/jsonxapian/taxonomy.cc:163-304 | Every edit leaves an acyclic graph acyclic, with every named parent present |
| `TaxonomySpec.ApplyAllDag` | src/jsonxapian/taxonomy.cc:163-304 | So does every run of edits |
| `TaxonomySpec.ConsistentMeans` | src/jsonxapian/taxonomy.cc:111-151 | Relations are exact if and only if, category by category, children are the categories that have it as a parent, and ancestors and descendants are what chains of links reach up and down, with no loop and every parent present |
| `TaxonomySpec.EditEffectOf` | src/jsonxapian/taxonomy.cc:163-304 | What an edit does to names and parents, one by one: adding keeps all and adds the name; removing takes the name away and out of all parents; linking and unlinking change the parents of one category by one name |
| `TaxonomySpec.AcceptsMeans` | src/jsonxapian/taxonomy.cc:231-245 | A link is refused if and only if it is from a category to itself or the category is a stored ancestor of the parent |
| `TaxonomySpec.LinkedInIsDerived` | src/jsonxapian/taxonomy.cc:247-271 | Two rounds of set unions give the full transitive closure with the new link |
| `TaxonomySpec.LinkRoundsDisjoint` | src/jsonxapian/taxonomy.cc:252-271 | The sets iterated over in each round are not among those the round changes |
| `TaxonomySpec.UnlinkedIsDerived` | src/jsonxapian/taxonomy.cc:290-303 | After a link is dropped it is enough to recalculate the child, the parent, what is below the child and what is above the parent |
| `TaxonomySpec.RemovedIsDerived` | src/jsonxapian/taxonomy.cc:197-214 | After a category is dropped it is enough to recalculate what was above and below it |
| `TaxonomySpec.RefusedPair` | src/jsonxapian/taxonomy.cc:223-245 | A link is refused only between categories that exist already, so that a refused call has created nothing |
| `TaxonomySpec.GrowingChanges` | src/jsonxapian/taxonomy.cc:36-66 | When entries only grow, the categories altered by two steps are those altered by both together: no change is undone unreported |
| `TaxonomySpec.AddIsDerived` | src/jsonxapian/taxonomy.cc:163-170 | A new category without links leaves all stored relations exact |
| `Taxonomies.Worklist` | src/jsonxapian/taxonomy.cc:118-128 | The loop ends on every acyclic graph and collects exactly what is reachable along the links |
| `Taxonomies.Taxonomy.constructor` | src/jsonxapian/taxonomy.h:74-76 | A new taxonomy is empty, and so consistent |
| `Taxonomies.Taxonomy.Put` | src/jsonxapian/taxonomy.cc:36-108 | An entry is replaced, and its name reported if and only if that altered it |
| `Taxonomies.Taxonomy.Add` | src/jsonxapian/taxonomy.cc:163-170 | The names are the old ones and this one; parents are as before, and none for a new category; all relations stay exact; the report is exact |
| `Taxonomies.Taxonomy.RecalcAncestors` | src/jsonxapian/taxonomy.cc:111-130 | The ancestors of a category become exactly what its stored parent links reach |
| `Taxonomies.Taxonomy.RecalcDescendants` | src/jsonxapian/taxonomy.cc:132-151 | The descendants of a category become exactly what its stored child links reach |
| `Taxonomies.Taxonomy.LinkAll` | src/jsonxapian/taxonomy.cc:252-271 | The nested loops put all of one set below all of another, and report what that altered |
| `Taxonomies.Taxonomy.LinkDirectly` | src/jsonxapian/taxonomy.cc:247-250 | The two ends of a link know each other, and an end is reported if and only if it was altered |
| `Taxonomies.Taxonomy.LinkUnder` | src/jsonxapian/taxonomy.cc:247-271 | The link and both rounds together, with an exact report |
| `Taxonomies.Taxonomy.ClosesLoop` | src/jsonxapian/taxonomy.cc:231-245 | The tests of both loops find a loop if and only if the child is an ancestor of the parent |
| `Taxonomies.Taxonomy.AddParent` | src/jsonxapian/taxonomy.cc:218-272 | Accepted if and only if no loop arises; then both names are there, the parent is among the parents of the category, and all other parents are as before; refused, nothing has changed; all relations are exact; the report is exact |
| `Taxonomies.Taxonomy.RecalcUnlinked` | src/jsonxapian/taxonomy.cc:293-303 | The recalculations that follow an unlinking make all relations exact again |
| `Taxonomies.Taxonomy.RemoveParent` | src/jsonxapian/taxonomy.cc:274-304 | The names are the old ones, and each category has its old parents, the one named less the parent named; all relations are exact; the report is exact |
| `Taxonomies.Taxonomy.Detach` | src/jsonxapian/taxonomy.cc:197-204 | Parents and children forget the category, and are reported |
| `Taxonomies.Taxonomy.RecalcDetached` | src/jsonxapian/taxonomy.cc:206-213 | The recalculations that follow, with the report kept exact |
| `Taxonomies.Taxonomy.Remove` | src/jsonxapian/taxonomy.cc:172-216 | The names are the old ones less the category, and each of the others has its old parents less the category; all relations are exact; the report is exact |
| `Taxonomies.Taxonomy.Perform` | src/jsonxapian/taxonomy.cc:163-304 | Any edit: accepted exactly when no loop arises; names and parents change as that edit says and no further; relations exact; the report is the names created, removed or altered; a refused edit leaves no trace |
| `Taxonomies.Taxonomy.PerformAll` | src/jsonxapian/taxonomy.cc:163-304 | After any run of edits the stored ancestors and descendants are the transitive closure of the parent links |
| `TaxonomyJson.ReadParentsOfDag` | src/jsonxapian/taxonomy.cc:331-337 | No link of an acyclic graph is refused, whatever part of it has been read already |
| `TaxonomyJson.ReadBack` | src/jsonxapian/taxonomy.cc:306-339 | A taxonomy listed in any order reads back as the same graph |
| `TaxonomyJson.ReadExact` | src/jsonxapian/taxonomy.cc:321-339 | Any JSON value is read as a graph if and only if it is an object of lists of names, the graph has the categories and links it lists, in whatever order and however often, and the graph has no loop |
| `TaxonomyJson.NamesToJson` | src/jsonxapian/taxonomy.cc:312-316 | The array lists each name once and no other |
| `TaxonomyJson.ToJson` | src/jsonxapian/taxonomy.cc:306-319 | The object lists every category once, with its parents |
| `TaxonomyJson.FromJson` | src/jsonxapian/taxonomy.cc:321-339 | Succeeds exactly on an object of lists of names that describes a graph without loops; then the taxonomy has that graph as its parent links and all relations are exact; consistent even when it fails |
| `TaxonomyJson.Clone` | src/jsonxapian/collconfig.cc:319-328 | A taxonomy cloned by way of JSON is equal to the original in all four relations |
| `Documents.Scan` | src/jsonxapian/collection.cc:164-206 | Skipping to a prefix in a sorted term list and reading while terms begin with it finds all terms with that prefix |
| `Documents.WithAncestorsTerms` | src/jsonxapian/collection.cc:190-210 | Replacing the ancestor terms of one group affects no category term, no id term and no other group |
| `Documents.Repair` | src/jsonxapian/collection.cc:190-210 | Term by term: the terms under the group name, a tab and an A are exactly those of the given ancestors, and all others are as before |
| `Documents.GatherAncestors` | src/jsonxapian/collection.cc:163-178 | The ancestors of all categories the document has a term for; categories no longer known give none |
| `Documents.GatheredAre` | src/jsonxapian/collection.cc:163-178 | The ancestors gathered are those stored with the categories under the group name, a tab and a C |
| `Documents.IndexedMeans` | src/jsonxapian/collection.cc:163-210 | A document is up to date for a group if and only if it has a term under the group name, a tab and an A exactly for each ancestor of a category it has a term for |
| `Documents.SharedGroupKeeps` | src/jsonxapian/collection.cc:190-210 | Terms another field put in a group survive a repair if and only if those that look like ancestor terms name ancestors that are due |
| `Documents.SharedGroupLoses` | src/jsonxapian/schema.cc:363-377 | A term of an exact field that a repair removes |
| `Documents.SharedTaxonomiesKeep` | src/jsonxapian/collection.cc:190-210 | Repaired for one taxonomy of a shared group, a document is up to date for the other if and only if both give its categories the same ancestors |
| `Documents.SharedTaxonomiesLose` | src/jsonxapian/collection.cc:190-210 | An ancestor term due to the second taxonomy that a repair for the first removes |
| `Documents.FirstTab` | src/jsonxapian/schema.cc:862-872 | Because group names hold no tab, a term belongs to one group only |
| `Indexing.IndexField` | src/jsonxapian/indexing.cc:351-410 | Each value read as a string, a whole number in range as its digits, gives the term of that category, cut, hashed or in error where it is too long as configured, and the terms of its ancestors; there is no other new term; the errors are the values neither empty nor read, and those too long where that is one |
| `Indexing.NamedAre` | src/jsonxapian/indexing.cc:376-394 | The categories a field names are those that some value is read and stored as |
| `Numerals.DecimalReads` | src/utils/jsonutils.cc:194-217 | The digits of a number stand for it, without needless zeros |
| `Indexing.ProcessedTerms` | src/jsonxapian/collconfig.cc:654-700 | A processed document has a term if and only if it had it before or some value of some field gives it, in the taxonomy of the group of the field |
| `Indexing.WithCategoriesUpToDate` | src/jsonxapian/indexing.cc:394-404 | Indexing a field leaves an up-to-date document up to date, also when several fields share a group |
| `Indexing.ProcessedUpToDate` | src/jsonxapian/indexing.cc:351-410 | A processed document has exactly the categories its fields name, and exactly their ancestors |
| `Indexing.ProcessDocument` | src/jsonxapian/collconfig.cc:654-700 | A term is in the document if and only if it was given or some value of some field gives it, in the taxonomy of its group; there is no error exactly when no value of any field is faulty |
| `Indexing.UpToDateIsFixpoint` | src/jsonxapian/collection.cc:117-223 | Up to date means exactly that indexing afresh would change nothing |
| `Indexing.ReindexedTerms` | src/jsonxapian/collection.cc:225-241 | Indexing afresh keeps categories and id terms, and sets the ancestors of every group |
| `Collections.PostingList` | src/jsonxapian/collection.cc:134-140 | The ids of the documents with a term, ascending |
| `Collections.NextId` | src/jsonxapian/collection.cc:143-161 | Ended lists go, and the least id at the front of the others is found |
| `Collections.Advance` | src/jsonxapian/collection.cc:214-221 | Every list that stands at the id steps past it |
| `Collections.MergeRound` | src/jsonxapian/collection.cc:142-222 | A round takes the least id off all lists and loses no other, so that no document is visited twice or missed |
| `Collections.FindId` | src/jsonxapian/collection.cc:182-188 | The first term in order that begins with a tab, if there is one |
| `Collections.UnchangedAncestors` | src/jsonxapian/collection.cc:122-140 | The ancestors of a category can only differ if the edit reported it |
| `Collections.UpdateIsReindex` | src/jsonxapian/collection.cc:117-223 | Repairing only the documents in reported categories equals indexing all documents afresh |
| `Collections.ReindexedEnough` | src/jsonxapian/collection.cc:225-241 | Groups of other taxonomies need no work |
| `Collections.NoRepairNeeded` | src/jsonxapian/collection.cc:377-387 | Adding a category without links, or a refused edit, leaves every document as indexing afresh would |
| `Collections.ReindexedUpToDate` | src/jsonxapian/collection.cc:225-241 | Documents indexed afresh are up to date |
| `Collections.EditedTaxonomiesAre` | src/jsonxapian/collection.cc:377-424 | An edit creates the taxonomy if need be, changes its names and parents as the edit says, and no other taxonomy |
| `Collections.ReindexedStoreKeeps` | src/jsonxapian/collection.cc:225-241 | Indexing afresh changes no term of any document but the ancestor terms of the groups |
| `Collections.Collection.constructor` | src/jsonxapian/collection.cc:46-51 | A new collection is in good order |
| `Collections.Collection.RawUpdateDoc` | src/jsonxapian/collection.cc:483-491 | Replaces the one document with the id term, or adds it under a new id; ids stay unique |
| `Collections.Collection.RawDeleteDoc` | src/jsonxapian/collection.cc:493-500 | Removes exactly the document with the id term |
| `Collections.Collection.RepairOne` | src/jsonxapian/collection.cc:163-212 | One document is repaired in place, under its own id |
| `Collections.Collection.UpdateModifiedCategoriesGroup` | src/jsonxapian/collection.cc:117-223 | Every document in a reported category is visited once, in ascending order, and repaired; no other is touched; it does not fail |
| `Collections.Collection.UpdateModifiedCategories` | src/jsonxapian/collection.cc:225-241 | All documents are as indexing afresh would make them |
| `Collections.Collection.CategoryEdit` | src/jsonxapian/collection.cc:377-424 | An edit is accepted exactly when no loop arises; names and parents of the one taxonomy change as the edit says; afterwards taxonomies are exact, every stored document is up to date, and no other term of any document has changed |
| `Pipeline.QueueSuitsAt` | src/features/category_tasks.cc:173-245 | Each queued task suits the taxonomies that the tasks before it will leave |
| `Pipeline.IndexKeepsInvariant` | src/features/category_tasks.cc:190-199 | The indexing thread keeps the invariant, whichever task comes next |
| `Pipeline.ProcessingKeepsInvariant` | src/features/category_tasks.cc:173-187 | So does every step of the processing threads, edits being alone and documents in parallel |
| `Pipeline.RunInvariant` | src/server/task_queue_group.h:98-121 | The invariant holds in every state of every run |
| `Pipeline.EveryRun` | src/features/category_tasks.cc:173-377 | In every run the processing side is the collection with all queued edits made, and the edit in progress if there is one; no queued edit will be refused; every queued document suits the taxonomies at its place; every stored document has exactly its ancestor terms |
| `RunQueries.EveryQuery` | src/jsonxapian/schema.cc:897-960 | In every state of every run a category query matches a stored document if and only if a category of it is, or descends from, a value asked for |
| `Interleavings.DrainedMore` | src/server/tasks.cc:207-294 | The indexing thread performs tasks in the order they were queued |
| `Interleavings.EveryRunInTurn` | src/server/task_queue_group.h:98-121 | However the stages interleave, a run leads to what it would have led to had the queue been worked off after each processing event |
| `Interleavings.SameOutcome` | src/server/task_queue_group.h:98-121 | Two runs with the same processing events that have worked off their queues are in the same state: taxonomies, documents and their ids |
| `Interleavings.DocumentArrives` | src/server/tasks.cc:157-245 | Once the queue is worked off, a document queued is stored under its id term, with exactly its other terms and those its values give |
| `Interleavings.DeletionArrives` | src/server/tasks.cc:271-294 | Once the queue is worked off, a deletion queued has removed the documents with the id term and no others |
| `Interleavings.DocumentsInParallel` | src/server/task_queue_group.h:98-121 | Any number of documents can be in progress at a time, each able to queue its result, and one that ends leaves the others |
| `Server.CloneTaxonomies` | src/jsonxapian/collconfig.cc:319-328 | A cloned configuration has equal taxonomies |
| `Server.TaskManager.constructor` | src/server/task_manager.cc:38-62 | A new server starts in an initial state |
| `Server.TaskManager.PerformEdit` | src/features/category_tasks.cc:173-245 | Throws exactly where a link would close a loop, and then leaves no trace; otherwise changes the configuration as the edit says and queues that edit; these are the two steps of the pipeline |
| `Server.TaskManager.PerformDocument` | src/server/tasks.cc:157-205 | Queues the document, after everything queued before, with exactly its other terms and those its values give in the configuration, and then the configuration if it has changed; these are the steps of the pipeline for it |
| `Server.TaskManager.IndexOne` | src/server/tasks.cc:207-294 | The next task is taken off the queue and always succeeds: an edit changes its taxonomy as it says and no terms but ancestor terms, an update replaces the one document with the id term or adds it under the next id, a deletion removes exactly the documents with the id term, a configuration replaces the taxonomies; this is the step of the pipeline |
| `CategoryQueries.QueryTerms` | src/jsonxapian/schema.cc:897-960 | Throws exactly for a type of query other than the three there are, or a value that is neither a string nor a whole number in range; otherwise the terms are the values under the group name with a tab and a C for "is", an A for "is_descendant", and both for "is_or_is_descendant" |
| `CategoryQueries.QueryValueIsIndexed` | src/jsonxapian/schema.cc:931-957 | A value is asked for under the name that indexing it stores |
| `CategoryQueries.TermMeaning` | src/jsonxapian/schema.cc:910-930 | A category term means being in the category, an ancestor term being in one strictly below it |
| `CategoryQueries.QueryExact` | src/jsonxapian/schema.cc:897-960 | On an up-to-date document a query of each type matches if and only if some category of the document is, or descends from, a value asked for |
| `CategoryQueries.AskForCategory` | src/jsonxapian/schema.cc:897-960 | An "is" query for a category finds a document just indexed if and only if some value of a field of the group was read and stored as that category |
| `JsonWalk.JSONWalker.constructor` | src/jsonmanip/jsonpath.cc:140-149 | The walker has before it all events of the document |
| `JsonWalk.JSONWalker.Next` | src/jsonmanip/jsonpath.cc:99-177 | Each call delivers the next event of the recursive traversal, and reports the end exactly when none is left |
| `Mappings.LookupIs` | src/jsonmanip/mapping.cc:127-153 | A member asked for by name is the first of that name, and null if there is none |
| `Mappings.EntryIs` | src/jsonmanip/mapping.cc:135-149 | A definition is read as the entry with the path, target and categoriser that it names, and as none if a part has the wrong type |
| `Mappings.CategoriserText` | src/jsonmanip/mapping.cc:220-239 | The text is a string itself, or the strings of an array, each followed by a space |
| `Mappings.ValueFor` | src/jsonmanip/mapping.cc:214-247 | What a target appends: the value, or the category of its text, or an empty string for no text |
| `Mappings.AppendTo` | src/jsonmanip/mapping.cc:164-188 | A value is appended, or the items of an array one by one; an empty array empties the field |
| `Mappings.AppendAllFields` | src/jsonmanip/mapping.cc:164-188 | After any list of appends each field holds, in order, what the appends to it contribute since the last one that emptied it; a field that no append names is absent |
| `Mappings.MappedIsDue` | src/jsonmanip/mapping.cc:190-251 | At or below a node, exactly the values that the paths of entries lead to are appended to their targets |
| `Mappings.AppendsExact` | src/jsonmanip/mapping.cc:190-336 | For the whole document: an append is made if and only if the path of an entry leads to its value, or it preserves a member to which and into which no entry leads |
| `Mappings.InsertAt` | src/jsonmanip/mapping.cc:34-50 | Inserting a path into the trie adds its target at that path and nowhere else |
| `Mappings.TrieMappedIsMapped` | src/jsonmanip/mapping.cc:190-251 | Walking a subtree along the trie appends exactly what the list of entries maps there |
| `Mappings.WalkNested` | src/jsonmanip/mapping.cc:266-336 | Below the top level, a node adds what is mapped at or below it, and marks its member handled exactly if there is an entry that applies |
| `Mappings.WalkMember` | src/jsonmanip/mapping.cc:266-336 | A top-level member adds what is mapped inside it or, failing that, goes to the default |
| `Mappings.WalkRoot` | src/jsonmanip/mapping.cc:266-336 | The whole event walk equals the recursive definition |
| `Mappings.TrieAppendsAreAll` | src/jsonmanip/mapping.cc:190-336 | Along the trie or from the list of entries, the same appends are due in the same order |
| `Mappings.Mapping.FromJson` | src/jsonmanip/mapping.cc:121-159 | Succeeds exactly if the value is an object whose list defines entries, each with a path, a target and perhaps a categoriser, and whose default is one of the two there are; then the trie holds exactly those entries, in order |
| `Mappings.Mapping.Handle` | src/jsonmanip/mapping.cc:190-251 | Appends what the entries for the node of an event call for |
| `Mappings.Mapping.HandleDefault` | src/jsonmanip/mapping.cc:253-263 | Preserves an unhandled top-level member if that is the default |
| `Mappings.Mapping.ApplyEvent` | src/jsonmanip/mapping.cc:285-333 | One turn of the loop is one step of the event machine |
| `Mappings.Mapping.Apply` | src/jsonmanip/mapping.cc:265-336 | One streaming walk gives what the mapping means: not applied exactly where the condition fails; produced exactly if no categoriser called for is missing; then each field holds, in order, what the appends to it contribute since it was last emptied, the appends being those of the recursive definition from the entry list |
| `SortKeys.ReversedOrder` | src/postingsources/multivalue_keymaker.cc:58-71 | Reverse encodings compare in the opposite order, also where one value is a prefix of the other, and neither is a prefix of the other |
| `SortKeys.ForwardOrder` | src/postingsources/multivalue_keymaker.cc:72-90 | Forward encodings compare as the values do |
| `SortKeys.FieldOrder` | src/postingsources/multivalue_keymaker.cc:46-97 | A missing value sorts last in either direction; different values are decided within their own encodings |
| `SortKeys.KeyOrder` | src/postingsources/multivalue_keymaker.cc:46-97 | Comparing keys as byte strings is comparing the tuples field by field, and equal keys mean equal tuples |
| `SortKeys.LoopStuck` | src/postingsources/multivalue_keymaker.cc:75-88 | With a zero byte in the value the forward loop makes no progress, however often it turns |
| `SortKeys.ForwardLoopEnds` | src/postingsources/multivalue_keymaker.cc:75-88 | The forward loop ends if and only if the value has no zero byte, and then it has copied the value |
| `SortKeys.AppendReversed` | src/postingsources/multivalue_keymaker.cc:62-71 | The reverse loop appends the reverse encoding |
| `SortKeys.AppendForward` | src/postingsources/multivalue_keymaker.cc:75-88 | For a value without zero bytes the loop ends and has copied it |
| `SortKeys.MakeKey` | src/postingsources/multivalue_keymaker.cc:46-97 | The key of a document is the one that orders as its tuple does |
| `NGramProfiles.LessTotal` | src/ngramcat/profile.cc:315-325 | Most frequent first, then by n-gram, is a strict total order |
| `NGramProfiles.FullSortIsSort` | src/ngramcat/profile.cc:315-325 | The full sort is in order and has the same items |
| `NGramProfiles.LeadsIsPrefix` | src/ngramcat/profile.cc:328-367 | A list of the k best items in order is the beginning of the full sort |
| `NGramProfiles.NextItem` | src/ngramcat/profile.cc:348-357 | Because n-grams come in order, comparing frequencies alone decides as comparing items would |
| `NGramProfiles.SelectBetter` | src/ngramcat/profile.cc:348-357 | Replacing the worst item held by a better one keeps the best held |
| `NGramProfiles.SelectWorse` | src/ngramcat/profile.cc:348-357 | Passing over a worse item keeps the best held |
| `NGramProfiles.MakeHeap` | src/ngramcat/profile.cc:345-345 | The same items with the worst at the front |
| `NGramProfiles.PushHeap` | src/ngramcat/profile.cc:352-352 | One more item, and again the worst at the front |
| `NGramProfiles.PopHeap` | src/ngramcat/profile.cc:353-353 | The front moved to the end, and a heap before it |
| `NGramProfiles.SortHeap` | src/ngramcat/profile.cc:362-362 | The same items in order |
| `NGramProfiles.Replace` | src/ngramcat/profile.cc:351-355 | Push, pop and drop exchange the worst item for the new one |
| `NGramProfiles.Fill` | src/ngramcat/profile.cc:338-343 | The first n-grams, as many as there is room for |
| `NGramProfiles.Select` | src/ngramcat/profile.cc:347-358 | A heap of fixed size ends up with the best items of all |
| `NGramProfiles.MostFrequentAre` | src/ngramcat/profile.cc:315-367 | The beginning of the full sort, by the counts themselves: how many n-grams, none twice, and each with a higher count than those after it and those left out, or the same count and earlier in order |
| `NGramProfiles.Build` | src/ngramcat/profile.cc:328-367 | As many n-grams as asked for, or all there are; none twice; each with a higher count than those after it and those left out, or the same count and earlier in order |
| `NGramProfiles.InitFromSorted` | src/ngramcat/profile.cc:114-127 | Each n-gram's position, for a repeated one its last |
| `NGramProfiles.InitFromNGram` | src/ngramcat/profile.cc:171-181 | Each slot holds an n-gram that stands there, or nothing |
| `NGramProfiles.PositionsFit` | src/ngramcat/profile.cc:114-181 | The positions made from a list are below their number if and only if no n-gram is repeated |
| `NGramProfiles.SortedRoundTrip` | src/ngramcat/profile.cc:114-181 | A list without repeats survives the way to positions and back |
| `NGramProfiles.NumberedRoundTrip` | src/ngramcat/profile.cc:114-181 | Positions that number their n-grams survive the way to a list and back |
| `NGramProfiles.BuiltProfileNumbered` | src/ngramcat/profile.cc:293-300 | A built profile has no repeats, so both hold of it |
| `Doubles.Base256Value` | libs/xapiancommon/serialise-double.cc:68-77 | A number is its digit part times 256 to the exponent |
| `Doubles.Base256Range` | libs/xapiancommon/serialise-double.cc:68-77 | The digit part of a number other than zero is in [1, 256) |
| `Doubles.Base256Whole` | libs/xapiancommon/serialise-double.cc:68-77 | The digit part of every finite number has at most seven base-256 digits after the point |
| `Doubles.ExponentRange` | libs/xapiancommon/serialise-double.cc:101-117 | Exponents of finite numbers are always encodable, so the exception is never thrown |
| `Doubles.DigitsRoundTrip` | libs/xapiancommon/serialise-double.cc:119-127 | The digits add up to the number they were peeled off |
| `Doubles.ExponentRoundTrip` | libs/xapiancommon/serialise-double.cc:101-166 | Sign, length and exponent are read back from all three exponent forms |
| `Doubles.LeadingZeros` | libs/xapiancommon/serialise-double.cc:143-147 | No encoding begins with the two zero bytes that the decoder treats apart |
| `Doubles.DoubleRoundTrip` | libs/xapiancommon/serialise-double.cc:79-201 | Every finite number decodes to itself before any suffix and takes exactly its own bytes |
| `Doubles.NothingRounded` | libs/xapiancommon/serialise-double.cc:181-191 | Every sum the decoder forms from an encoded number has at most 53 bits, so machine arithmetic is exact |
| `Doubles.AppendDigits` | libs/xapiancommon/serialise-double.cc:119-127 | The loop reaches a remainder of zero within eight bytes and has appended the digits |
| `Doubles.SerialiseDouble` | libs/xapiancommon/serialise-double.cc:79-136 | Produces the encoding that decodes to the number |
| `Doubles.AddDigits` | libs/xapiancommon/serialise-double.cc:184-188 | The backward loop adds the digits up |
| `Doubles.UnserialiseDouble` | libs/xapiancommon/serialise-double.cc:138-201 | On any bytes: the number, infinity for an exponent too large, or an error where data is short |
| `Doubles.DecodeExponent` | libs/xapiancommon/serialise-double.cc:152-166 | The exponent in each of its three forms, or an error where its second byte is missing |
| `Lengths.EncodeLength` | libs/xapiancommon/serialise.h:37-58 | Produces the code that decodes to the length |
| `Lengths.DecodeGroups` | libs/xapiancommon/serialise.cc:34-45 | Reads at most five groups, and fails where data runs out |
| `Lengths.DecodeLength` | libs/xapiancommon/serialise.cc:27-52 | On any bytes: the length, or an error; never past the end, and with the check on never more than what follows |
| `Lengths.GroupsRoundTrip` | libs/xapiancommon/serialise.h:45-55 | Groups decode to themselves before any suffix if and only if they are not too many |
| `Lengths.LengthRoundTrip` | libs/xapiancommon/serialise.cc:27-52 | A length decodes to itself before any suffix if and only if it is below 2^35 + 255 and, with the check on, that much follows |
| `Lengths.ChunkRoundTrip` | src/jsonxapian/docdata.cc:49-54 | A string behind its length reads back before any suffix if and only if it is not too long |
| `Lengths.DecodeChunk` | src/jsonxapian/docvalues.cc:203-214 | On any bytes: a slice of them, or an error |
| `Containers.ValuesRoundTrip` | src/jsonxapian/docvalues.cc:46-55 | Values read back are those written if none is too long; otherwise reading fails, after some of the first of them |
| `Containers.SerialiseValues` | src/jsonxapian/docvalues.cc:46-55 | Writes every value of the set once |
| `Containers.SlotDecoder.constructor` | src/jsonxapian/docvalues.cc:195-201 | All values of the slot are ahead |
| `Containers.SlotDecoder.Next` | src/jsonxapian/docvalues.cc:203-214 | Gives the next value, the end, or the error, and a value is a slice of the slot |
| `Lexicographic.PrecedesMeans` | src/postingsources/multivaluerange_source.cc:186-200 | Byte strings compare by their first difference; without one the shorter comes first |
| `Containers.InRangeIs` | src/postingsources/multivaluerange_source.cc:186-200 | The two comparisons accept exactly the strings from the one end to the other, both included |
| `Containers.CheckRange` | src/postingsources/multivaluerange_source.cc:186-200 | On any bytes: true if and only if some readable value is in the range; the exception only if none is and the bytes are malformed |
| `Containers.CheckStoredRange` | src/postingsources/multivaluerange_source.cc:186-200 | On a serialised value set: true if and only if a member is in the range, if no member is too long; in any case true only if one is, and the exception only if one is too long |
| `Containers.FieldsRoundTrip` | src/jsonxapian/docdata.cc:33-74 | Fields read back are those written if none is too long, and otherwise reading fails |
| `Containers.FieldMapOf` | src/jsonxapian/docdata.cc:59-74 | Storing the fields of a map in any order fills the same map |
| `Containers.DocumentData.Serialise` | src/jsonxapian/docdata.cc:33-57 | Writes every field once with its value |
| `Containers.DocumentData.Unserialise` | src/jsonxapian/docdata.cc:59-74 | Replaces the fields by those readable, later ones over earlier; reports malformed bytes |
| `Containers.DocumentData.StoreAndRead` | src/jsonxapian/docdata.cc:33-74 | A field map survives being written and read if and only if no name or value is too long |
| `Geo.Split` | libs/geospatial/geoencode.cc:36-70 | Degrees, minutes, seconds and sixteenths make up the angle, each below its bound |
| `Geo.NearestOfGrid` | libs/geospatial/geoencode.cc:80-95 | A point of the grid is rounded to itself |
| `Geo.NearestIsClose` | libs/geospatial/geoencode.cc:80-95 | Any other coordinate is moved by at most half a sixteenth of a second, halves upwards, but for the longitude of a pole |
| `Geo.Encode` | libs/geospatial/geoencode.cc:72-132 | Appends six bytes for the nearest point; refused exactly for latitudes out of range, and then nothing is appended |
| `Geo.Decode` | libs/geospatial/geoencode.cc:134-176 | From two bytes or more: the coordinate those bytes stand for |
| `Geo.PrefixRoundsDown` | libs/geospatial/geoencode.cc:134-176 | The first two, three, four or five bytes of a code decode to the point rounded down to a degree, four minutes, fifteen seconds or a second; all six to the point |
| `Geo.GeoRoundTrip` | libs/geospatial/geoencode.cc:72-176 | A point of the grid decodes to itself, whatever follows its six bytes |
| `Coordinates.SerialiseCoords` | libs/geospatial/latlongcoord.cc:111-121 | Writes the coordinates in range, one after the other |
| `Coordinates.UnserialiseCoord` | libs/geospatial/latlongcoord.cc:59-74 | One coordinate from what is left, and where the reader stands then |
| `Coordinates.ListLoopEnds` | libs/geospatial/latlongcoord.cc:59-109 | Reading a list ends if and only if its length is not one over a multiple of six |
| `Coordinates.WrittenListEnds` | libs/geospatial/latlongcoord.cc:94-121 | Reading a list that was written comes to an end |
| `Coordinates.UnserialiseCoords` | libs/geospatial/latlongcoord.cc:95-109 | For such lengths: the coordinates of all six-byte codes, and of a shorter one at the end |
| `Coordinates.CoordsRoundTrip` | libs/geospatial/latlongcoord.cc:95-121 | A list reads back as its coordinates in range, each moved to the grid |
| `Coordinates.GridCoordsRoundTrip` | libs/geospatial/latlongcoord.cc:95-121 | A list reads back as itself if and only if every coordinate is in range, is a whole number of sixteenths of a second in both angles, has a longitude in [0, 360) and has longitude zero at a pole |
| `Coordinates.GridCoordIsPoint` | libs/geospatial/geoencode.cc:72-132 | Those coordinates are exactly the ones of the points of the grid |
| `Coordinates.GridCoordStays` | libs/geospatial/geoencode.cc:80-95 | They are exactly the ones that storing does not move |
| `BoundingBox.DecodeOfCode` | libs/geospatial/geoencode.cc:225-268 | What passes the first byte is decided as by decoding in full and testing |
| `BoundingBox.FaithfulIsAllPass` | libs/geospatial/geoencode.cc:225-268 | The decoder agrees with the full test on every encoded point if and only if the first byte excludes no point inside |
| `BoundingBox.StartReached` | libs/geospatial/geoencode.cc:101-108 | Every first byte between those of the corners of a block of the grid is that of a point in it |
| `BoundingBox.BlockExact` | libs/geospatial/geoencode.cc:230-244 | The points of a block all pass if and only if the first bytes between its corners do |
| `BoundingBox.BoundingBoxExact` | libs/geospatial/geoencode.cc:189-268 | For any edges, also past the poles: the decoder agrees with the full test on every encoded point if and only if a pole between the edges passes and so does every first byte between those of the corners of the box, or of its two halves |
| `BoundingBox.InsidePasses` | libs/geospatial/geoencode.cc:189-244 | Where the corners fit sixteen bits, the first byte excludes no point inside unless the eastern edge or a pole is lost |
| `BoundingBox.LostPoint` | libs/geospatial/geoencode.cc:178-187 | With the eastern edge lost, the easternmost point of the lowest latitude inside is excluded |
| `BoundingBox.PoleNotFound` | libs/geospatial/geoencode.cc:206-219 | A lost pole is inside and is excluded |
| `BoundingBox.RegularExact` | libs/geospatial/geoencode.cc:189-268 | Where the corners fit sixteen bits, the decoder agrees with the full test if and only if neither the eastern edge nor a pole is lost |
| `BoundingBox.LatitudesExact` | libs/geospatial/geoencode.cc:189-268 | For edges from pole to pole no pole is lost, and only the eastern edge can be |
| `BoundingBox.EastEdgeExample` | libs/geospatial/geoencode.cc:178-187 | A box nearly all the way round that loses points |
| `BoundingBox.PoleExample` | libs/geospatial/geoencode.cc:206-219 | A box with a northern edge past the pole that loses the pole |
| `BoundingBox.SouthExample` | libs/geospatial/geoencode.cc:206-213 | A box with a southern edge past the pole in which nothing is found |
| `Fragments.FragmentNameInjective` | src/dbgroup/dbgroup.cc:266-267 | Different numbers give different fragment names |
| `Fragments.ContentsAt` | src/dbgroup/dbgroup.cc:236-250 | The store seen as one map holds what the fragments hold |
| `Fragments.PutChanges` | src/dbgroup/dbgroup.cc:402-423 | A document put where its id term is, or where no fragment has it, replaces or adds one entry of the one map |
| `Fragments.DeleteChanges` | src/dbgroup/dbgroup.cc:434-444 | Deleting at the first hit deletes the entry of the one map |
| `Fragments.AddFragChanges` | src/dbgroup/dbgroup.cc:262-274 | A new fragment has a name never used and changes nothing that is stored |
| `Fragments.DbGroup.constructor` | src/dbgroup/dbgroup.cc:276-283 | A new group is empty and closed |
| `Fragments.DbGroup.InitFrags` | src/dbgroup/dbgroup.cc:162-198 | The fragment list read from the control database is the one in use |
| `Fragments.DbGroup.OpenWritable` | src/dbgroup/dbgroup.cc:305-330 | Opening, or opening again, changes no document |
| `Fragments.DbGroup.OpenReadonly` | src/dbgroup/dbgroup.cc:332-355 | Neither does opening for reading, which fails exactly when there is no control database yet |
| `Fragments.DbGroup.Shut` | src/dbgroup/dbgroup.cc:293-303 | Nor closing |
| `Fragments.DbGroup.AddFrag` | src/dbgroup/dbgroup.cc:200-274 | An empty fragment at the end, named by its number, recorded in the control database |
| `Fragments.DbGroup.FindHome` | src/dbgroup/dbgroup.cc:404-412 | The one fragment that has the id term, or none |
| `Fragments.DbGroup.AddNew` | src/dbgroup/dbgroup.cc:415-423 | A new document goes to the last fragment, or to a new one exactly when that is full |
| `Fragments.DbGroup.AddDocument` | src/dbgroup/dbgroup.cc:390-423 | Refused exactly when not writable; otherwise the document is the one under its id term, or one more without, and all others are as before; a new fragment is started exactly for a new document when the last is full; no id term in two fragments; no fragment over its bound |
| `Fragments.DbGroup.DeleteDocument` | src/dbgroup/dbgroup.cc:425-445 | Refused exactly when not writable or without an id term; otherwise the document under the id term is gone and all others are as before |
| `Fragments.DbGroup.PerformAll` | src/dbgroup/dbgroup.cc:162-445 | After every run of adds, deletes, opens and closes the group is what one map would be, with distinct names, single homes and bounded fragments |
| `CollectionPools.EveryRunSound` | src/jsonxapian/collection_pool.cc:90-226 | In every run each live handle has exactly one owner: a client, the reader cache or the writer cache |
| `CollectionPools.NeverAgain` | src/jsonxapian/collection_pool.cc:90-226 | A reader given out before its collection was deleted is never given out afterwards, nor is a writer that was back by then |
| `CollectionPools.ReturnsExactly` | src/jsonxapian/collection_pool.cc:90-226 | After a deletion, some continuation of the run gives a handle out again if and only if it is a writer that was still out |
| `CollectionPools.LateWriter` | src/jsonxapian/collection_pool.cc:90-194 | Every writer still out when its collection is deleted is the next one given out, once it is released |
| `CollectionPools.CollectionPool.constructor` | src/jsonxapian/collection_pool.cc:43-57 | A new pool owns nothing |
| `CollectionPools.CollectionPool.GetReadonly` | src/jsonxapian/collection_pool.cc:122-152 | The reader cached last if there is one, and otherwise a new one; no one holds it, and it was not given out before a deletion |
| `CollectionPools.CollectionPool.GetWritable` | src/jsonxapian/collection_pool.cc:154-170 | The cached writer if there is one, and otherwise a new one; no one holds it |
| `CollectionPools.CollectionPool.Release` | src/jsonxapian/collection_pool.cc:172-226 | The handle is cached exactly when there is room and the pool still knows it, and deleted otherwise; never more readers cached than allowed |
| `CollectionPools.CollectionPool.Del` | src/jsonxapian/collection_pool.cc:90-120 | The collection is in none of the three caches, cached handles of it are deleted, its readers in use forgotten, all others left alone |
| `CheckPoints.Expire` | src/server/checkpoints.cc:127-142 | Drops exactly the checkpoints not touched for the given time, whole, and leaves the others as they are |
| `CheckPoints.ErrorsConserved` | src/server/checkpoints.cc:211-285 | All errors of a collection, in order, are those handed to its reaches followed by those waiting: none lost, none twice |
| `CheckPoints.SinceLastReach` | src/server/checkpoints.cc:264-285 | The waiting errors are those appended since the last reach |
| `CheckPoints.ReachedOnce` | src/server/checkpoints.cc:264-285 | A checkpoint reached once is given what was waiting at that time |
| `CheckPoints.KeptAfter` | src/server/checkpoints.cc:127-142 | A reached checkpoint stays there and reached as long as no call on its collection comes later than its time, whatever the calls |
| `CheckPoints.CheckPointManager.constructor` | src/server/checkpoints.h:242-246 | Nothing waits and nothing is known |
| `CheckPoints.CheckPointManager.AppendError` | src/server/checkpoints.cc:211-223 | The count of waiting errors goes up by one; the details are kept after those kept before while there is room |
| `CheckPoints.CheckPointManager.PublishCheckpoint` | src/server/checkpoints.cc:236-248 | A checkpoint that is there, reached or not, stays as it is; otherwise it is there, not reached |
| `CheckPoints.CheckPointManager.SetReached` | src/server/checkpoints.cc:264-285 | The checkpoint is reached and has all waiting errors; nothing waits any more |
| `CheckPoints.CheckPointManager.GetState` | src/server/checkpoints.cc:287-300 | Of the checkpoints that have not expired: one not there is unknown, one not reached is reported so, and a reached one reports the number of all errors attributed to it by the whole history and the first of them in detail; a checkpoint asked for within its time from being reached is always reported as reached |
| `CheckPoints.CheckPointManager.ListIds` | src/server/checkpoints.cc:250-262 | The identifiers of the checkpoints that have not expired |

## Left out

- HTTP, the search language, text analysis, facets and everything Xapian does inside: databases are maps of documents, documents sets of terms; within-document frequencies, values and stored data of category documents are not modelled.
- `remove_taxonomy`, `set_taxonomy` and schema changes: the groups that use a taxonomy are fixed; parallel document tasks that add a schema type at the same time are not modelled.
- Server.TaskManager.PerformDocument: one document task at a time, because the class is sequential; parallel document tasks are in `Pipeline`. What is added to the schema is not modelled.
- Pipeline.EveryRun: tasks rejected because a queue is full, and tasks lost in a shutdown, are not modelled; they are never queued. A group belongs to one taxonomy and is not used by other types of field.
- Collections.Collection.CategoryEdit: a group belongs to one taxonomy, as the documentation advises; `Documents.SharedGroupKeeps` says what happens otherwise.
- Indexing.ProcessedUpToDate: other types of field do not use the groups of category fields, as the documentation advises; `Documents.SharedGroupKeeps` says what happens otherwise.
- Collections.Collection.UpdateModifiedCategoriesGroup: reads the store through a current view; the group database handle cached by the source may be older.
- Indexing.IndexField: slot values and the stored copy of the field are not modelled; the hash for long values is a parameter; JSON numbers are whole, because the source refuses others.
- Indexing.ProcessDocument: the terms of all other field types are given as one set.
- Mappings.Mapping.Apply: the condition and the categorisers are parameters, because they are evaluated by other code.
- Mappings.Mapping.FromJson: does not read the condition, which is a parameter. After a failure for a bad categoriser the source keeps a target without one, which the model does not.
- `Mapping::to_json`, `JSONPath` printing and parsing: easy members.
- NGramProfiles.MakeHeap: promises what the standard heap functions promise their callers, the front, and not their layout of the rest; the same holds of PushHeap, PopHeap and SortHeap.
- N-gram counting, the distance between profiles and the language guesser: counts are an input.
- Doubles.UnserialiseDouble: on bytes that no encoder wrote the sum is exact, because there the machine may round; on encoded numbers it does not. With exponent 127 the source also reads the byte after the number, which may be past the end, for a test that no byte can pass; that read is not modelled.
- Geo.Encode: works on reals; the rounding of products and of the wrapped longitude in machine numbers is not modelled.
- Geo.Decode: works on reals; sums of degrees, minutes and seconds in machine numbers may differ in the last bit.
- BoundingBox.BoundingBoxExact: latitudes beyond about 37000 degrees, for which the source converts to an integer that cannot hold them, count as if it could.
- Containers.SerialiseValues: allows any order of the set, of which the source's ascending order is one; so does DocumentData.Serialise.
- `MultiValueRangeSource::unserialise`: it refuses what its own `serialise` writes, so there is no round trip to prove.
- Geo-encoded and single-valued slots, and `DocumentValues`: easy members.
- Fragments.DbGroup.AddDocument: documents carry their own id term and no other's; commits, crashes between writes and the wrap-around of the fragment counter after 2^32 fragments are not modelled.
- CollectionPools.CollectionPool.GetReadonly: failures to open a database are not modelled.
- CheckPoints.CheckPointManager.GetState: the clock is a parameter of each call; nothing is assumed of it but where a statement says so.
- CheckPoints.CheckPointManager.AppendError: the counter is unbounded, where the source's has 32 bits.
- Locks: every operation of the pool and of the checkpoint manager holds its mutex throughout, and is one step here.
