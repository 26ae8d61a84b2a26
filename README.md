# OcrdMets document model

A Dafny model of `OcrdMets`, the in-memory METS document of OCR-D core. What is
modelled is what `tests/model/test_ocrd_mets.py` asserts about it. The
implementation itself is not part of this model, so every contract here comes
from a test assertion or from the documented behaviour the tests exercise.

A document (`Document.Mets`) holds:

- the declared file groups (`mets:fileGrp/@USE`), in declaration order;
- the file records (`mets:file`: ID, group, mimetype, URL, local path, page), in insertion order;
- the physical pages of the structMap, each an ID with an optional `ORDER`;
- the number of agents in the `metsHdr`, and whether the header exists;
- whether the ID cache is on, and the cache itself, a map from file ID to record.

The methods are `add_file_group`, `add_file`, `set_physical_page_for_file`,
`remove_physical_page`, `remove_physical_page_fptr`, `remove_one_file`,
`remove_file`, `rename_file_group`, `remove_file_group` and `add_agent`. Each one
keeps the document well-formed:

- group names are unique;
- page IDs are unique;
- every record's group is declared;
- every page a record points to exists;
- with caching on, the cache is the last-wins index of the records.

A group name follows the token syntax of a file ID. `add_file`,
`add_file_group` and `rename_file_group` refuse a malformed new name with
`InvalidFileGrp` and change nothing.

Every method states its whole new state. Failures are `Result` values, one
error constructor per condition the tests expect. `remove_one_file` of an
unknown ID also fails. That is a modelling choice (see "## Left out"). A
`remove_file` pattern that matches nothing removes nothing.

`find_all_files` is a pure query (`Query.FindAllFiles`) over the records in
document order: groups in declaration order, and records in insertion order
within a group. The filters are AND-combined. Within one filter, comma-separated
tokens are OR-ed. A token starting with `//` is a regular expression. On
`pageId`, a token `A..B` covers every page whose order lies between the orders
of A and B. The regular-expression engine is a parameter
`re: (pattern, value) -> bool`, and nothing is assumed about it.

The cached and uncached paths are kept apart by an explicit branch on `cached`:

- an uncached ID lookup sees every record;
- a cached one is answered from the ID index, so it sees only the record the index holds, the last one added with that ID;
- every other query sees the whole tree on both paths, so `find_all_files()` with no filters returns every record exactly once, in document order, even after an `ignore` add;
- with caching on, `force` on a taken ID always fails;
- `remove_one_file` removes the record the lookup returns: the indexed one when cached, the first one with the ID when uncached.
- `remove_file` is the same on both paths: it matches against every record, including the `ignore` duplicates a cached lookup hides, and returns the removed records in insertion order, not in document order.

Under `force`, a compatible add overwrites the first record with the ID in
place, which keeps its position. When no page is requested, the existing
record's page is not compared and the new record keeps that page, so the page
is not pruned. The other records with that ID in the group are dropped, as the
test at line 172 expects.

The cache flag is a pure function of the `OCRD_METS_CACHING` setting and the
constructor flag (`Config.CacheFlag`).

The module `Scenarios` replays the tests as client code of the `Mets` contracts.
Where a test depends on an asset document, it is stated for any document that
has the property the test relies on (for example, "FILE_0005_IMAGE is the only
file on PHYS_0005").

Two remarks on the test text are written as comments in `scenarios.dfy`:

- The page-pruning tests (`test_ocrd_mets.py` lines 263-291) write
  `assert x, expected`. That checks only that `x` is non-empty. The model states
  the comparison the tests evidently intend.
- Lines 162 and 195 both parse as `(len(...) == 1) if cached else 2`, so the
  uncached count of two is never checked at either line. The model states the
  count for both paths (`Scenarios.IgnoreDuplicateId`, `Scenarios.CountAfterIgnore`).

## Model

| member | source | states |
|---|---|---|
| Syntax.RejectedExamples | tests/model/test_ocrd_mets.py:198-201 | the file ID `1234:::` and the group name `1:! bad filegrp` are not valid tokens |
| Syntax.AcceptedExamples | tests/model/test_ocrd_mets.py:119-151 | the IDs and group names the tests add successfully (`foo123`, `best-id-ever`, `FILE_0001_IMAGE`, `OUTPUT`, `OCR-D-IMG`, `TEST`, …) are valid tokens |
| Syntax.AcceptedIds | tests/model/test_ocrd_mets.py:150-151 | the file IDs the tests add successfully are valid tokens |
| Syntax.IsToken | tests/model/test_ocrd_mets.py:198-201 | a valid token is non-empty, does not start with a digit, and contains none of `:`, `!`, `,`, space and `/`, so the file ID `1234:::` fails it |
| Syntax.TokenHasNoFilterSyntax | tests/model/test_ocrd_mets.py:82 | a valid ID contains no comma and no slash, so as a filter it is one exact token |
| Config.CacheFlag | tests/model/test_ocrd_mets.py:372-380 | the effective flag is true for an environment value "true" in any case, false for "false", and the constructor flag when the value is unset or anything else |
| Config.CachePrecedence | tests/model/test_ocrd_mets.py:372-380 | an environment value of "true" or "false" (any case) decides the flag; otherwise the constructor flag decides; the constructor flag matters exactly when the value is unset or unrecognised |
| Config.EnvironmentOverride | tests/model/test_ocrd_mets.py:373-380 | the six constructions of test_envvar give the asserted flag |
| Seqs.Filter | tests/model/test_ocrd_mets.py:78-98 | a filtered sequence holds exactly the kept elements, each no more often than before |
| Query.Matches | tests/model/test_ocrd_mets.py:78-98 | no filters accept every record; `local_only` accepts only records with a local path; a page filter accepts only records on a page |
| Query.ParseToken | tests/model/test_ocrd_mets.py:79-94 | a token is a regex exactly when it starts with `//` (the rest is the pattern); on the page field a token with `..` is a range split at its first `..`; otherwise it is the exact value |
| Query.ExpandRange | tests/model/test_ocrd_mets.py:91-94 | `A..B` stands for exactly the pages whose order lies between A's and B's orders, inclusive; nothing when either has no order |
| Query.FindAllFiles | tests/model/test_ocrd_mets.py:78-98 | a record is in the result iff it is given and every supplied filter (fileGrp, ID, pageId, mimetype, url, local filename, local_only) accepts it; the result is a sub-multiset of the input |
| Query.NoFiltersReturnsAll | tests/model/test_ocrd_mets.py:79 | without filters every record is returned, once each, in order |
| Query.AllMatchReturnsAll | tests/model/test_ocrd_mets.py:140 | a query that every record passes returns all of them, in order |
| Query.FindAllAppend | tests/model/test_ocrd_mets.py:78-94 | querying a concatenation concatenates the results, so document order is kept |
| Query.OrList | tests/model/test_ocrd_mets.py:93-94 | a comma list matches a value iff its first token or the rest of the list does |
| Query.AnyTokenCons | tests/model/test_ocrd_mets.py:93-94 | a token list with one more token in front matches iff that token or the rest does |
| Query.RegexToken | tests/model/test_ocrd_mets.py:81 | a `//p` token matches a value iff the regex engine matches `p` against it |
| Query.RangeToken | tests/model/test_ocrd_mets.py:91 | `A..B` on pageId matches a page iff A and B have orders and the page's order lies between them, inclusive |
| Query.ExactToken | tests/model/test_ocrd_mets.py:80 | a plain token matches exactly the equal value |
| Query.SplitOr | tests/model/test_ocrd_mets.py:93-94 | splitting `a,rest` at commas yields `a` followed by the split of `rest` |
| Query.JoinSplit | tests/model/test_ocrd_mets.py:93-94 | joining the comma-split tokens with commas gives back the filter string |
| Query.FindRejectPartition | tests/model/test_ocrd_mets.py:288-291 | the records a pattern matches and the ones it leaves together are a permutation of all |
| Query.RejectAll | tests/model/test_ocrd_mets.py:288-291 | the records a pattern leaves are exactly those it does not match: what remove_file keeps |
| Query.NothingFoundKeepsAll | tests/model/test_ocrd_mets.py:288-291 | a pattern that finds nothing leaves every record |
| Query.FindById | tests/model/test_ocrd_mets.py:82 | an ID query with a valid ID finds exactly the records with that ID, in order |
| Structure.EnsurePage | tests/model/test_ocrd_mets.py:107-111 | a missing page is appended with the given order; an existing one is kept; page IDs stay unique |
| Structure.EnsureGroup | tests/model/test_ocrd_mets.py:119-125 | a missing group is appended; an existing one leaves the list unchanged; names stay unique |
| Structure.Index | tests/model/test_ocrd_mets.py:160-173 | the cache's keys are exactly the IDs in use, and each maps to a record with that ID |
| Structure.IndexAppend | tests/model/test_ocrd_mets.py:161-162 | adding a record points the cache entry for its ID at that record |
| Structure.EnterUnderUpdate | tests/model/test_ocrd_mets.py:161-162 | building the index from an earlier record commutes with pointing an ID at the newest record |
| Structure.IndexIsLast | tests/model/test_ocrd_mets.py:161-162 | the cache holds, for each ID, the last record with it |
| Structure.KeepLastIsIndex | tests/model/test_ocrd_mets.py:193-195 | the cached view holds exactly the records the cache points to |
| Structure.KeepLastDistinct | tests/model/test_ocrd_mets.py:193-195 | the cached view has one record per ID |
| Structure.KeepLastOfUnique | tests/model/test_ocrd_mets.py:193-195 | with unique IDs, the ID index's view is the whole record list |
| Structure.CachedLookupIsSingle | tests/model/test_ocrd_mets.py:193-195 | in the cached view an ID lookup finds one record if the ID is used, otherwise none |
| Structure.WithIdPermutation | tests/model/test_ocrd_mets.py:193-195 | ID lookups on two permutations of the records find equally many records |
| Structure.DocOrderIsPermutation | tests/model/test_ocrd_mets.py:79 | document order lists every record exactly once |
| Structure.Prune | tests/model/test_ocrd_mets.py:275-291 | a page is kept iff it existed and, if it was one of the removed records' pages, some remaining record is on it |
| Structure.PruneWellFormed | tests/model/test_ocrd_mets.py:275-291 | removing records and pruning their pages keeps the document well-formed |
| Structure.PruneNothing | tests/model/test_ocrd_mets.py:288-291 | pruning with no record removed keeps every page |
| Structure.FilterUniqueIds | tests/model/test_ocrd_mets.py:318-328 | removing records keeps IDs unique |
| Edits.PageOf | tests/model/test_ocrd_mets.py:114-116 | the page reported for a file ID belongs to a record with that ID; None means no such record has a page |
| Edits.FirstWithIdIsHead | tests/model/test_ocrd_mets.py:169-170 | the record compared by force is the first record with the ID in insertion order, the head of the insertion-order ID list |
| Edits.LastIndex | tests/model/test_ocrd_mets.py:193-195 | the position of the last record with an ID, none after it carrying the ID |
| Edits.DropLastId | tests/model/test_ocrd_mets.py:283-284 | with caching on, remove_one_file removes exactly the last record with the ID, if any |
| Edits.IndexIsLastWithId | tests/model/test_ocrd_mets.py:193-195 | the cache entry for an ID is the last record with that ID |
| Edits.UniqueFirstIsLast | tests/model/test_ocrd_mets.py:275-286 | with unique IDs the cached and the uncached removal drop the same record |
| Edits.DropIdInGroup | tests/model/test_ocrd_mets.py:169-173 | force drops exactly the records with the ID in the target group |
| Edits.Overwrite | tests/model/test_ocrd_mets.py:169-173 | the new record takes the position of the first record with its ID, everything before it is unchanged, and the other records with the ID in its group go |
| Edits.OverwriteWellFormed | tests/model/test_ocrd_mets.py:169-173 | a compatible overwrite, with the pages its dropped records left empty pruned, keeps the document well-formed |
| Edits.DropFirstId | tests/model/test_ocrd_mets.py:277 | uncached, removing one file by ID removes exactly the first record with it, if any |
| Edits.ReplaceLeavesOne | tests/model/test_ocrd_mets.py:169-173 | when every record with the ID is in the target group, overwriting leaves exactly one record with the ID: the new one |
| Edits.PagesFor | tests/model/test_ocrd_mets.py:107-111 | add_file with a page ID creates the page if missing, without an order; without a page ID the pages are unchanged |
| Edits.DropPage | tests/model/test_ocrd_mets.py:262-265 | removing a page keeps exactly the other pages |
| Edits.ClearPage | tests/model/test_ocrd_mets.py:262-265 | records on a removed page lose their page and nothing else |
| Edits.ClearFptr | tests/model/test_ocrd_mets.py:268-272 | unlinking a file clears the page of the records with that ID and nothing else |
| Edits.SetPage | tests/model/test_ocrd_mets.py:141-146 | linking a file sets the page of the records with that ID and nothing else |
| Edits.ClearPageOrphansNothing | tests/model/test_ocrd_mets.py:262-265 | after removing a page, no record points to it |
| Edits.ClearFptrProperties | tests/model/test_ocrd_mets.py:268-272 | after unlinking, the file has no page, and a second unlink changes nothing |
| Edits.SetPageMoves | tests/model/test_ocrd_mets.py:141-146 | after linking, the file's page is the target page |
| Edits.SetPageKeepsIds | tests/model/test_ocrd_mets.py:141-146 | linking a file to a page changes no file ID |
| Edits.SetPageKeepsOthers | tests/model/test_ocrd_mets.py:143-146 | linking one file leaves every other file's page as it was |
| Edits.RemoveLastFileOnPagePrunes | tests/model/test_ocrd_mets.py:275-279 | removing the only file on a page removes the page |
| Edits.RemoveMatchingPrunes | tests/model/test_ocrd_mets.py:288-291 | a pattern matching exactly the files on a page finds something, and removing those files prunes the page |
| Edits.PruneKeepsHostedPages | tests/model/test_ocrd_mets.py:275-291 | a page that still holds a file survives pruning |
| Edits.RenameIn | tests/model/test_ocrd_mets.py:301-309 | renaming replaces the old name with the new one in place |
| Edits.Regroup | tests/model/test_ocrd_mets.py:301-309 | renaming moves the old group's records to the new name and touches nothing else |
| Edits.RenameProperties | tests/model/test_ocrd_mets.py:301-309 | after a rename to a fresh name, the old name is gone, the new one is present, names stay unique and every record's group is declared |
| Edits.RenameWellFormed | tests/model/test_ocrd_mets.py:301-309 | renaming a group to an unused name, or to itself, keeps the document well-formed |
| Edits.MatchingGroups | tests/model/test_ocrd_mets.py:340 | a `//` pattern addresses exactly the declared groups it matches |
| Edits.Targets | tests/model/test_ocrd_mets.py:312-344 | remove_file_group addresses the matching groups for a regex, otherwise the named group if it is declared |
| Edits.DropNames | tests/model/test_ocrd_mets.py:318-344 | removing groups keeps exactly the other names, unique |
| Edits.DropGroups | tests/model/test_ocrd_mets.py:318-344 | recursive removal keeps exactly the records of the other groups |
| Edits.DropOneGroupIsOthers | tests/model/test_ocrd_mets.py:326-328 | removing one group's records leaves exactly the other groups' records, in order |
| Edits.RemoveOneGroupCounts | tests/model/test_ocrd_mets.py:323-328 | removing one group leaves one name fewer and exactly that group's records fewer |
| Document.Mets.Empty | tests/model/test_ocrd_mets.py:107-109 | a document from `<mets/>` has no groups, files, pages or header, and its cache flag follows the precedence rule |
| Document.Mets.Load | tests/model/test_ocrd_mets.py:372-380 | a loaded document has the given contents, a cache built from them when caching is on, and the cache flag from the precedence rule |
| Document.Mets.View | tests/model/test_ocrd_mets.py:161-162 | a query sees exactly the record list, except a cached query with an ID filter, which sees exactly the records the ID index holds, one per ID |
| Document.Mets.FindAllFiles | tests/model/test_ocrd_mets.py:78-98 | find_all_files is the filter query applied to the visible records in document order (groups in declaration order, records in insertion order); a record is found iff it is visible and every filter accepts it, and no more often than it is visible; with no filters, every record exactly once, in document order, on both paths |
| Document.Mets.PhysicalPages | tests/model/test_ocrd_mets.py:101-111 | physical_pages lists each page of the structMap once, one entry per page |
| Document.Mets.PhysicalPagesFor | tests/model/test_ocrd_mets.py:114-116 | get_physical_pages(for_fileIds) gives one entry per ID: the page of a record with that ID, or None when none has a page |
| Document.Mets.AddFileGroup | tests/model/test_ocrd_mets.py:119-125 | add_file_group declares a missing group and is idempotent; a name that fails the token syntax is refused with InvalidFileGrp; nothing else changes |
| Document.Mets.RenameFileGroup | tests/model/test_ocrd_mets.py:294-309 | a missing group fails with "No such fileGrp"; a new name that fails the token syntax fails with InvalidFileGrp; a failure changes nothing; otherwise the group and its records take the new name |
| Document.Mets.RemoveFileGroup | tests/model/test_ocrd_mets.py:312-344 | a missing group fails; a non-empty target without `recursive` fails with "not empty"; otherwise the targeted groups and exactly their records go, and pages left empty are pruned |
| Document.Mets.AddFile | tests/model/test_ocrd_mets.py:150-212 | checks in order: missing ID, ID syntax, group syntax. Then the duplicate-ID policy: the default fails; ignore appends; force overwrites a compatible record in place when uncached, keeping its page when none is requested, and always fails when cached. An append creates the record's page |
| Document.Mets.Replace | tests/model/test_ocrd_mets.py:169-173 | the uncached force path overwrites the first record with the ID in place and prunes pages left empty, the new record's own page staying; groups are unchanged |
| Document.Mets.RemoveOneFile | tests/model/test_ocrd_mets.py:275-286 | an unknown ID fails and changes nothing. Otherwise it removes the record an ID lookup returns: cached, the one the cache holds (the last with the ID); uncached, the first with the ID. A page left empty is pruned |
| Document.Mets.RemoveFile | tests/model/test_ocrd_mets.py:288-291 | exactly the records the pattern matches are removed and returned, and pages left empty are pruned; a pattern matching nothing changes nothing |
| Document.Mets.SetPhysicalPageForFile | tests/model/test_ocrd_mets.py:141-146 | the page is created with the given order if missing, and the file's records point to it |
| Document.Mets.RemovePhysicalPage | tests/model/test_ocrd_mets.py:262-265 | the page goes and its records become page-less |
| Document.Mets.RemovePhysicalPageFptr | tests/model/test_ocrd_mets.py:268-272 | the file's records become page-less; the page list is untouched |
| Document.Mets.AddAgent | tests/model/test_ocrd_mets.py:227-239 | one agent more, and the header exists afterwards |
| Document.IdLookupCounts | tests/model/test_ocrd_mets.py:193-195 | an ID lookup finds every record with the ID when uncached, and one or none when cached |
| Scenarios.FirstOfFresh | tests/model/test_ocrd_mets.py:156-158 | after adding a fresh ID, the record force compares against is the one just added |
| Scenarios.WithIdOfFresh | tests/model/test_ocrd_mets.py:160-162 | after adding a fresh ID, the records with it are the new one and those added later |
| Scenarios.RejectDuplicateId | tests/model/test_ocrd_mets.py:150-182 | the first add of a fresh ID succeeds; re-adding it fails by default and under force with another mimetype |
| Scenarios.IgnoreDuplicateId | tests/model/test_ocrd_mets.py:184-195 | ignore appends a second record; lookup finds two uncached and one cached |
| Scenarios.TwoWithTheId | tests/model/test_ocrd_mets.py:188-191 | after the first add and the ignore add, the records with the ID are exactly those two, in order |
| Scenarios.CountAfterIgnore | tests/model/test_ocrd_mets.py:193-195 | with two records carrying the ID, lookup finds two when uncached and one when cached |
| Scenarios.ForceAfterIgnore | tests/model/test_ocrd_mets.py:164-173 | forcing a compatible record leaves exactly one record with the ID. Uncached, it succeeds and drops the duplicate; cached, it fails |
| Scenarios.IgnoreStaysVisible | tests/model/test_ocrd_mets.py:184-195 | with caching on, after an `ignore` add of a taken ID, a query without filters finds both records and an ID lookup finds one |
| Scenarios.ForceKeepsPage | tests/model/test_ocrd_mets.py:169-170 | an uncached force of foo123 with a new URL and no page leaves the one record, now with the new URL, still on foobar, and foobar stays |
| Scenarios.AddFileIdAlreadyExists | tests/model/test_ocrd_mets.py:150-173 | the whole test: one record with the ID at the end |
| Scenarios.AddGroupTwice | tests/model/test_ocrd_mets.py:119-125 | adding TEST twice declares one group |
| Scenarios.PagesFromEmpty | tests/model/test_ocrd_mets.py:107-111 | no pages at first; adding a file on page foobar gives exactly that page |
| Scenarios.NothingFound | tests/model/test_ocrd_mets.py:131 | a document without records finds nothing |
| Scenarios.AddFirstFile | tests/model/test_ocrd_mets.py:128-138 | the first add into OUTPUT creates the group and holds the record with page foobar |
| Scenarios.AddTwoFiles | tests/model/test_ocrd_mets.py:137-140 | a second add into OUTPUT leaves one group and both records |
| Scenarios.BothInOutput | tests/model/test_ocrd_mets.py:140 | both records are found by the group filter, on either path |
| Scenarios.MoveFirstFile | tests/model/test_ocrd_mets.py:141-142 | foo123 is then on the new page barfoo |
| Scenarios.MoveSecondToQuux | tests/model/test_ocrd_mets.py:143-144 | foo1232 is then on the new page quux, and foo123 is still on barfoo |
| Scenarios.MoveSecondToBarfoo | tests/model/test_ocrd_mets.py:145-146 | foo1232 is then on barfoo, next to foo123 |
| Scenarios.MoveBetweenPages | tests/model/test_ocrd_mets.py:141-147 | the three page moves in order, each step's assertion being the contract of the step member it calls; afterwards both files are on barfoo and the groups are unchanged |
| Scenarios.AddFile0 | tests/model/test_ocrd_mets.py:128-147 | the whole test, through AddTwoFiles, BothInOutput and MoveBetweenPages: one group, and both files on barfoo at the end |
| Scenarios.AddFileNoPageId | tests/model/test_ocrd_mets.py:215-217 | a file added without a page has none |
| Scenarios.InvalidArguments | tests/model/test_ocrd_mets.py:353-360 | the bad ID, the missing ID and the bad group name are rejected, leaving records, groups and pages unchanged |
| Scenarios.AgentAdded | tests/model/test_ocrd_mets.py:227-230 | one agent more |
| Scenarios.HeaderOnDemand | tests/model/test_ocrd_mets.py:232-239 | no header at first, one after the first agent |
| Scenarios.RemovePage | tests/model/test_ocrd_mets.py:262-265 | the page list is exactly the old one without PHYS_0001, so the other pages stay in order and no page is added; no record points to PHYS_0001 |
| Scenarios.RemoveFptrTwice | tests/model/test_ocrd_mets.py:268-272 | after two unlinks the file's page is reported as None, and the pages are untouched |
| Scenarios.RemovePageAfterRemoveFile | tests/model/test_ocrd_mets.py:275-286 | on a document with unique IDs, removing the only file on PHYS_0005, on either path, removes that page and keeps every page that still holds a file; the new page list is the pruned old one, so no page is added and the order is kept |
| Scenarios.RemoveFileRegex | tests/model/test_ocrd_mets.py:288-291 | removing the files a regex matches, which are exactly those on PHYS_0005, removes that page and those files only, and keeps every page that still holds a file (PHYS_0001 and PHYS_0002 at line 291); the new page list is the pruned old one, so no page is added and the order is kept |
| Scenarios.RenameNonExistent | tests/model/test_ocrd_mets.py:294-298 | renaming a missing group fails with NoSuchFileGrp and changes nothing |
| Scenarios.RenameFileGroup0 | tests/model/test_ocrd_mets.py:301-309 | the old name is gone and the new name is present |
| Scenarios.RemoveNonEmptyGroup | tests/model/test_ocrd_mets.py:312-315 | a non-recursive removal of a group with files fails with FileGrpNotEmpty and changes nothing |
| Scenarios.RemoveFileGroup0 | tests/model/test_ocrd_mets.py:318-328 | one group fewer, and exactly that group's files fewer in find_all_files |
| Scenarios.RemoveFileGroupRegex | tests/model/test_ocrd_mets.py:331-344 | exactly the groups the pattern matches go, with exactly their files |

## Left out

- XML parsing and serialisation, `to_xml`, and the raw tree checks (`_tree` children, non-ASCII round trip): they concern the XML library. The metsHdr is only "exists after the first agent", and each agent is only counted.
- Agent attributes (name, type, role, other type): only the count is modelled.
- `merge`: it depends on a second, unseen document.
- `unique_identifier`, `empty_mets` metadata (`VERSION`, `CREATEDATE`), `__str__`: these are clock and tool metadata and formatting.
- Logging capture: logging is I/O.
- The asset documents and their absolute counts (17 groups, 35 files, …): they depend on unseen XML data. Scenarios state the tests for any document with the property the test relies on.
- The regex engine: it is a parameter. Nothing is decided about anchoring or syntax.
- Environment variables: the setting is an `Option<string>` argument. Lower-casing is ASCII only.
- `OcrdFile` objects: records are values, so `f.pageId` after `set_physical_page_for_file` is read back from the document (`Edits.PageOf`).
- `remove_one_file(ocrd_file)`: the model takes the record's ID. Lines 283-284 pass the `OcrdFile` found by `find_all_files(ID=…)[0]`. With caching on, the record removed is the one the cache holds, which is that object.
- test_file_pageid assigns `pageId` on an `OcrdFile` object. Records are values here, so that assignment is not modelled.
- `orderlabel` of a page: it is not used by any query.
- `Document.Mets.RenameFileGroup`: renaming to another existing group name fails with FileGrpExists. The tests do not cover this case, and failing keeps group names distinct.
- `Document.Mets.AddFile`: under force, the record compared and overwritten is the first with the ID in insertion order. When `ignore` duplicates of the ID sit in more than one group and a later-declared group holds the earlier record, that is not the first one `find_all_files(ID=…)` lists.
- `Document.Mets.AddFile`: a failing duplicate add has already declared the group. The tests do not pin this down.
- `Document.Mets.RemoveFileGroup`: the error and the target set are decided before anything is removed.
- `Document.Mets.RemoveOneFile`: an unknown ID fails with FileNotFound. This is a modelling choice. No test removes an unknown ID, and the documented error list has no such error.
- `Document.Mets.RemoveOneFile`: uncached, the first record with the ID in insertion order is removed. It is the first one `find_all_files(ID=…)` lists, except when `ignore` duplicates of the ID sit in more than one group and a later-declared group holds the earlier record.
- `Document.Mets.RemoveOneFile`: with caching on, the cache stays the last-wins index of the remaining records. Removing the indexed record of a duplicated ID therefore makes the earlier duplicate visible to cached lookups again. Whether the original index drops the ID instead is not modelled. `RemoveFile` behaves the same way.
- `Document.Mets.AddFile`: under force, the other records with the ID in the target group are dropped and pages only they were on are pruned. The test (line 172) expects one record afterwards, but the pruning is not pinned down.
- `Document.Mets.Load`: the group names of a loaded document are not checked against the token syntax; only the operations that introduce a name check it.
- `Document.Mets.RenameFileGroup`: the checks run in the order missing group, malformed new name, name clash. The tests fix only the first.
- `Document.Mets.Empty`: the constructor's cache flag always appears as an explicit argument. Where the tests (lines 108, 236 and 356) construct with no flag, the default, caching disabled, is passing `false`. `Document.Mets.Load` takes it the same way.
- `Document.Mets.View`: with caching on, every query with an ID filter uses the ID index, whether the filter is an exact ID, a regex or a comma list. The tests only look IDs up exactly.
- `Syntax.IsToken`: only ASCII letters are accepted. The non-ASCII letters an XML name may also contain are not modelled.
- `Scenarios.AddFile0`: its contract is the end state. The intermediate page assertions (lines 142 and 144) are the contracts of `Scenarios.MoveFirstFile` and `Scenarios.MoveSecondToQuux`, which it runs.
- `Scenarios.RemoveFileGroupRegex`: it states which groups and files remain, not the counts 15 and 31, which depend on the asset document.
