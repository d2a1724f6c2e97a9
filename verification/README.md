# Verified model of the Pressh site cache, storage adapter and page helpers

This project models, in Dafny, the parts of Pressh whose correctness depends on
state, order or string arithmetic, and proves what the code promises about them:

- **The content-tag render cache** of the site: an insertion-ordered map that
  doubles as a recency list, an inverted tag index and a running byte total, all
  changed in place (`RenderCache.dfy`). `Recency.dfy` describes each operation on
  the recency list alone; `CacheRuns.dfy` proves what holds over whole runs.
- **The content service** (`ContentService.dfy`): an edit reads an entry and then puts
  a revision and the whole entry back, one storage call at a time, so edits overlap,
  fail half-way and overwrite each other as they can in the program.
- **The front controller** beside it (`FrontController.dfy`, `Stamp.dfy`): requests
  find and read header, footer and page in separate storage calls, look the page up
  under a version stamp and render on a miss, with edits in between. The cache there is
  the recency list the cache class is proved against. Where the cache's own comments
  speak of an `updatedAt` stamp, the code uses three revision numbers; the model
  follows the code. `Histories.dfy` and `Visits.dfy` prove that requests can read
  exactly what a history of edits shows, `Transparency.dfy` when the cache is invisible
  and an edit live at once under a history, `Publication.dfy` that visitors see nothing
  but what was published, and `StaleHits.dfy` holds runs in which the cache is not
  invisible and an edit not live.
- **The SQLite storage adapter**: the mapping between documents and rows
  (`Documents.dfy`; `Hosts.dfy` shows that what it assumes of JSON text can be met),
  the shipped table schema (`Schema.dfy`), constraints and upserts (`Tables.dfy`),
  cascading deletes (`Cascade.dfy`), what INSERT OR REPLACE would lose
  (`Replacement.dfy`), filters (`Filters.dfy`), cursor pagination (`Ordering.dfy`,
  `Paging.dfy`), single statements and transaction bodies (`Statements.dfy`), what a
  query finds in terms of the documents that reads return (`Queries.dfy`), the adapter
  itself (`SqliteStorage.dfy`) and what callers get across calls
  (`StorageGuarantees.dfy`). The database engine appears as the meaning of the
  statements the adapter issues.
- **The maintenance switch** with its 3000 ms cache under overlapping storage
  reads (`Maintenance.dfy`).
- **The style scanner** that builds the `style-src` hash list
  (`StyleScanner.dfy`), **HTML escaping** (`Escaping.dfy`), and the catalogue
  helpers **`cartesian`** (`Cartesian.dfy`) and **`slugify`** (`Slug.dfy`).

Six properties turned out not to hold everywhere:

- A cache hit can be stale. Under a history of edits, every response of every
  interleaving is a fresh render exactly when no two snapshots that the history can
  show to visitors of a path, the first of them small enough to be cached, agree in all
  three revision numbers and differ in a content (`FreshExactly`). Editing with no
  delete underneath the content service and no two overlapping edits of one entry or
  address is such a history (`CacheIsTransparent`); an entry that is deleted and created
  again (`StaleAfterRecreate`), two overlapping saves (`StaleAfterOverlappingSaves`) and
  two overlapping creates (`StaleAfterOverlappingCreates`) are not.
- Publishing is not always instant. A revision of a page, header or footer is live for
  every request that asks from then on exactly when from then on no other entry and no
  lower revision is public at the address and can be read then or later
  (`GoesLiveExactly`).
  Editing without deletes and overlaps always is like that (`EditGoesLive`); a
  transition that overlaps a save is not (`SaveLostToTransition`).
- A document does not always come back from its normalized table as it was put:
  a missing field without the `optional` mark comes back as null, a null in an
  optional field disappears, a value of another type is converted. It comes back
  unchanged exactly when every column can hold its field (`RoundTripExactly`).
- The two kinds of tables do not answer every filter alike. They do, for all documents
  held without loss, exactly when each clause compares alike in its column and in JSON
  or both tables are bound to find nothing (`TablesAnswerAlike`).
- `slugify` is not idempotent exactly when the cut at 80 characters falls right
  after a dash (`SlugIdempotentExactly`).
- The maintenance switch answers wrongly, differing from the flag through the whole
  time span the answer may stem from, exactly when the answer rests on a failed read
  while the flag was on (`WrongExactly`).

## Model

| member | source | states |
|---|---|---|
| RenderCache.EntrySize | apps/site/src/cache.ts:40-44 | the size of an entry is the UTF-8 length of its HTML, its key and every listed tag, a repeated tag counting each time |
| RenderCache.RenderCache.constructor | apps/site/src/cache.ts:46-56 | a new cache is empty and consistent; each budget is the option, the environment value or the default, but at least 1 |
| RenderCache.RenderCache.DropKey | apps/site/src/cache.ts:58-69 | dropping a key removes just that entry, reclaims its bytes and keeps the tag index exact, repeated tags included |
| RenderCache.RenderCache.UnindexTags | apps/site/src/cache.ts:63-68 | the key disappears from exactly the listed tags and no empty tag set is left behind |
| RenderCache.RenderCache.Get | apps/site/src/cache.ts:72-79 | a lookup answers with the stored page if there is one, moves it to the recent end past the others, which keep their order, or on a miss changes nothing; all three structures stay consistent and within budget |
| RenderCache.RenderCache.Set | apps/site/src/cache.ts:80-99 | storing a page leaves exactly the entries of the LRU specification and keeps byte total, tag index and both budgets right |
| RenderCache.RenderCache.IndexTags | apps/site/src/cache.ts:87-91 | the key is listed under exactly its tags in addition to what was indexed before |
| RenderCache.RenderCache.EvictOldest | apps/site/src/cache.ts:92-98 | eviction ends with both budgets met and the entries of the eviction specification |
| RenderCache.RenderCache.InvalidateTag | apps/site/src/cache.ts:100-106 | purging a tag leaves exactly the entries that do not list it, in their old order, with an exact index |
| RenderCache.RenderCache.DropKeys | apps/site/src/cache.ts:103-104 | dropping a snapshot of keys one by one removes exactly those entries although each drop changes the index |
| RenderCache.RenderCache.Clear | apps/site/src/cache.ts:107-111 | afterwards the cache is empty and consistent |
| RenderCache.FootprintIsBytes | apps/site/src/cache.ts:39-44 | that size is the number of bytes of page, key and tags in UTF-8, one after the other |
| RenderCache.LeadByteTellsLength | apps/site/src/cache.ts:41-42 | the bytes counted are those of RFC 3629: the first one tells how many there are |
| Recency.WithoutKeepsOrder | apps/site/src/cache.ts:58-60 | dropping keys leaves the other entries in their order |
| Recency.InsertRefinesLru | apps/site/src/cache.ts:80-99 | a page that fits leaves exactly the longest suffix of the old order without the key, then the key, that meets both budgets, and is itself never evicted; an oversized page only removes the old entry |
| Recency.TouchReorders | apps/site/src/cache.ts:75-77 | a lookup of a key that is there makes it the most recent, and any two other entries keep their order; of a key that is not there it changes nothing; no entry and no total changes |
| Recency.PurgeIsExact | apps/site/src/cache.ts:100-106 | a purge keeps an entry if and only if it does not list the tag, and reorders nothing |
| CacheRuns.Perform | apps/site/src/cache.ts:71-112 | calls on a cache object take its entries through the run that the lemmas below speak of |
| CacheRuns.RunKeepsBudget | apps/site/src/cache.ts:26-37 | both budgets and key uniqueness hold after any run of operations |
| CacheRuns.HitIsLatestStore | apps/site/src/cache.ts:71-112 | after any run, a cached entry is the latest store of its key, and no clear and no purge of one of its tags came later |
| CacheRuns.SurvivesStepExactly | apps/site/src/cache.ts:92-98 | an entry that an operation spares stays cached if and only if it and everything more recent still fit together with the new page |
| CacheRuns.TouchedPageSurvives | apps/site/src/cache.ts:75-77 | the most recent page survives any later run that does not replace, purge or clear it if at every store it and the latest versions of the distinct keys looked up or stored since fit both budgets |
| CacheRuns.EvictionIsByRecency | apps/site/src/cache.ts:92-98 | a store evicts less recent entries before more recent ones |
| Stamp.StampInjective | apps/site/src/app.ts:918 | equal version strings mean equal page, header and footer revisions |
| Stamp.StampExample | apps/site/src/app.ts:918 | page revision 12 with header revision 3 and no footer is stamped `12:h3:f0` |
| FrontController.VersionExample | apps/site/src/app.ts:918 | so is a page that is found at revision 12 with a header at revision 3 and no footer |
| FrontController.HitHasSameRevisions | apps/site/src/app.ts:915-925 | in any interleaving, overlapping edits and deletes included, a hit body was rendered earlier for the same path from exactly the page, header and footer revision numbers this request resolved |
| Histories.RunTimed | apps/site/src/app.ts:883-925 | in any interleaving, what a request has read of header, footer and page is what the edits so far show at some times, the page sought after both were read |
| Visits.VisitRuns | apps/site/src/app.ts:883-925 | conversely, into any run a visit can be worked that reads any snapshot the history of edits shows, with nothing else in the run changed |
| Histories.ShowsPartExactly | packages/engine/src/content-service.ts:402-423 | what a history shows of a part is exactly this: the first entry by id at the address, published, at its current revision, with the content on record under that revision, a header or footer only if that has layout nodes; and nothing where there is none |
| Transparency.FreshIfRenderedAlike | apps/site/src/app.ts:915-925 | under a history of edits every response for a path is a fresh render in all interleavings if and only if the snapshots that the history shows under one stamp, the first of them cacheable, render alike |
| Transparency.FreshExactly | apps/site/src/app.ts:915-925 | for a renderer that makes contents visible that is the case if and only if no two snapshots the history shows agree in all three revision numbers and differ in a content |
| Transparency.CacheIsTransparent | apps/site/src/app.ts:883-1072 | with no delete underneath the content service and no overlapping edits of one entry or address, every response of every interleaving is the rendering, for its path, of the page, header and footer that the request itself read |
| ContentService.EditKeepsRecord | packages/engine/src/content-service.ts:247-396 | a storage call of an orderly edit keeps one entry to an address, changes or drops no current or earlier revision, and revision numbers only count up |
| ContentService.SeekExactly | packages/engine/src/content-service.ts:411-423 | resolving an address for the public gives an entry and revision exactly if that entry is the first by id at the address, is published and has that revision |
| ContentService.SaveEffect | packages/engine/src/content-service.ts:290-314 | with nothing in between, a save adds one revision with the given content, makes it current, and changes nothing else |
| ContentService.RestoreEffect | packages/engine/src/content-service.ts:374-396 | a restore saves the content of the version asked for as the next revision; a version that is not on record changes nothing |
| ContentService.CreateEffect | packages/engine/src/content-service.ts:247-287 | a create puts the entry at revision 1 with its content; an occupied address changes nothing |
| ContentService.TransitionEffect | packages/engine/src/content-service.ts:323-355 | a transition changes whether the entry is published and nothing else |
| ContentService.HalfSave | packages/engine/src/content-service.ts:290-314 | a save that fails between its two puts leaves one revision more, which nothing refers to, and the entry as it was |
| ContentService.HalfCreate | packages/engine/src/content-service.ts:260-281 | a create that fails between its two puts leaves the entry without its revision |
| ContentService.StaysReadable | packages/engine/src/content-service.ts:290-396 | with no delete and no overlapping edits, an entry whose current revision is on record stays so at every moment, in the middle of a save or a restore too |
| Publication.PublishedPageStaysUp | packages/engine/src/resolver.ts:102-109 | so a page that has once been there is there, for a visit to be answered from, whenever its entry is published |
| Publication.AnswerWasPublic | packages/engine/src/resolver.ts:102-109 | in every run, overlaps and deletes included, each part of each response is an entry that was published, first by id at the part's address and at that revision at a moment after the request could first ask, with the content on record then or later; a header or footer is absent only if there was none to show |
| Publication.UnpublishedIsNotAnswered | packages/engine/src/content-service.ts:421 | while nothing is published at a path's address no request that asks for the page is answered |
| Publication.VisitAnsweredExactly | apps/site/src/app.ts:883-925 | at any point of any run, a visit with nothing in between is answered if and only if the first entry at its address is published and its revision on record, and then from it and the header and footer public then |
| Publication.SiteCacheRuns | apps/site/src/app.ts:919-1068 | the site's cache goes through a run of lookups and stores, so all that is proved of such runs holds of it |
| Publication.PurgedPagesAreGone | apps/site/src/app.ts:1068 | purging the tag of an entry leaves only pages rendered from other entries |
| Transparency.AnswerLedTo | packages/engine/src/resolver.ts:102-142 | in every run, overlaps and deletes included, a header, footer or page that a request had not asked for yet is answered with a revision that is public at its address afterwards |
| Transparency.GoesLiveExactly | apps/site/src/app.ts:888-925 | a revision is live for a part in every interleaving with the later edits if and only if from then on no other entry and no lower revision is public at the address and can be read then or later |
| Transparency.EditGoesLive | packages/engine/src/content-service.ts:290-314 | with no delete and no overlapping edits, every request that has not yet asked for its page, header or footer answers from the entry and revision current now or a later one |
| StaleHits.StaleAfterRecreate | apps/site/src/app.ts:915-925 | an entry deleted and created again at its address between two visits makes the second visit a hit on the deleted page, without any overlap |
| StaleHits.StaleAfterOverlappingSaves | packages/engine/src/content-service.ts:296-314 | two saves that read the same revision make a later visit a hit on the content that was overwritten, without any delete |
| StaleHits.StaleAfterOverlappingCreates | packages/engine/src/content-service.ts:260-281 | two creates that find the same address free make a visit a hit on the page of the entry that the address no longer leads to |
| StaleHits.SaveLostToTransition | packages/engine/src/content-service.ts:333-355 | a transition that read the entry before a save and stores it afterwards takes the served page back to the revision before the save |
| Maintenance.AnswersAreRecent | apps/site/src/app.ts:570-580 | in any interleaving, an answer is what one read gave at some moment later than 3000 ms before the request asked: the stored flag of that moment if that read succeeded, off if it failed, whatever other reads did |
| Maintenance.SwitchTakesEffect | apps/site/src/app.ts:564-580 | every request that asks at least 3000 ms after a switch is answered with the new flag, unless its own answer rests on a failed read, which is off |
| Maintenance.BoundIsTight | apps/site/src/app.ts:571-575 | an answer can be 2999 ms out of date |
| Maintenance.WrongExactly | apps/site/src/app.ts:576-579 | an answer differs from the flag throughout its span exactly if it rests on a failed read and the flag was on throughout |
| Maintenance.FailedReadAnswersOff | apps/site/src/app.ts:576-579 | a run in which that happens |
| StyleScanner.StyleSrcDirective | apps/site/src/app.ts:95-104 | the directive is `style-src 'self'` followed by one quoted sha256 source for each block the expression finds, in order, each after a space |
| Matching.MapMatches | apps/site/src/app.ts:97-102 | the matching loop ends and produces one item per match, each search starting where the last match ended |
| StyleScanner.ScanOfParse | apps/site/src/app.ts:96-102 | for any split of a document into blocks and gaps in which no block starts, the scan finds exactly the block bodies, in order and once each |
| StyleScanner.EveryDocumentParses | apps/site/src/app.ts:96-102 | every document has such a split |
| StyleScanner.ScanOfPlainDocument | apps/site/src/app.ts:88-104 | texts without an opening tag and blocks with clean attributes and bodies are scanned to exactly the bodies |
| Escaping.EscapeIsEncode | apps/site/src/render.ts:6-13 | the five sequential replacements are one per-character encoding |
| Escaping.EscapeSpecials | apps/site/src/render.ts:6-13 | the five special characters become the five entities, spelled out, and no other character changes |
| Escaping.EscapeAppend | apps/site/src/render.ts:6-13 | escaping distributes over concatenation |
| Escaping.DecodeEscape | apps/site/src/render.ts:6-13 | a one-pass decoder recovers every input |
| Escaping.EscapeIsEscaped | apps/site/src/render.ts:5-13 | no bare special character is left and every ampersand starts one of the five entities |
| Escaping.EscapeDecodeExactly | apps/site/src/render.ts:6-13 | fully escaped texts are exactly those that escaping restores after decoding |
| Escaping.EscapeTwice | apps/site/src/render.ts:6-13 | escaping twice changes nothing exactly if there was nothing to escape |
| Cartesian.Combine | panels/inventory/format.ts:33-43 | the result has one combination per number below the product of the non-empty axis sizes, in mixed-radix order with the last axis fastest; for options with distinct names it lists exactly the choices, and with distinct values none twice |
| Cartesian.ListedInOrder | panels/inventory/format.ts:33-43 | for options with distinct names as passed, combinations are listed in lexicographic order: the first option at which two differ decides by the order of its values |
| Cartesian.CombinedAreChoices | panels/inventory/format.ts:32-43 | the same stated for the options as passed: distinct names give exactly one value for each axis that has any, distinct values no repetition |
| Cartesian.ExtendAll | panels/inventory/format.ts:36-39 | the inner loops extend every combination by every value of one axis, in that order |
| Cartesian.ComboDigits | panels/inventory/format.ts:32-43 | with distinct names, combination i maps each axis to the value at its digit of i |
| Cartesian.DigitIsMixedRadix | panels/inventory/format.ts:37-39 | the digit of an axis is i divided by the product of the later axis sizes, modulo its own |
| Cartesian.ListedExactly | panels/inventory/format.ts:32-43 | with distinct names, exactly the choices of one value per non-empty axis are listed |
| Cartesian.NoDuplicates | panels/inventory/format.ts:32-43 | with distinct values per axis no combination is listed twice |
| Slug.SlugIsJoinedWords | panels/inventory/format.ts:4-12 | a slug is the maximal words of the lower-cased text without quotes, joined by single dashes and cut at 80; trimming never matters |
| Slug.DropQuotesExactly | panels/inventory/format.ts:8 | single and double quotes are left out and nothing else, the rest in its order |
| Slug.SlugShape | panels/inventory/format.ts:4-12 | a slug has only a-z, 0-9 and single dashes, at most 80 characters, no dash first, and a dash last only at length 80 |
| Slug.SlugOfSlug | panels/inventory/format.ts:4-12 | the slug of a slug only loses a dash that the cut left at its end |
| Slug.SlugFixedPointExactly | panels/inventory/format.ts:4-12 | a slug is a fixed point exactly when it does not end in a dash |
| Slug.SlugIdempotentExactly | panels/inventory/format.ts:4-12 | slugify is idempotent on a text exactly when the cut does not fall right after a dash |
| Slug.SlugTwiceIsFixed | panels/inventory/format.ts:4-12 | a second application always reaches a fixed point |
| Slug.SlugNotIdempotent | panels/inventory/format.ts:11 | there is a text whose slug is not a fixed point |
| Documents.DocToRow | packages/core/src/storage/typed-mapper.ts:52-63 | a row holds the converted value of every column's field, NULL for a missing one, and all other fields in the extra column |
| Documents.RowToDoc | packages/core/src/storage/typed-mapper.ts:66-77 | a document gets back its id, every column that is not an omitted optional, and the extra fields |
| Documents.ToStore | packages/core/src/storage/typed-mapper.ts:18-30 | a stored value is of the column's SQL kind, and NULL exactly for null, a missing field, and what is no number in an integer column; in a boolean column it is 0 exactly for false, 0 and the empty text |
| Documents.ConvertsBackExactly | packages/core/src/storage/typed-mapper.ts:18-46 | a value survives storing and reading exactly if it is null or of the column's kind |
| Hosts.SoundHostExists | packages/core/src/storage/typed-mapper.ts:23-38 | with any number and string conversion there is a serializer that a parser undoes, as the mapping relies on |
| Documents.RoundTripExactly | packages/core/src/storage/typed-mapper.ts:52-77 | a document comes back from its row unchanged exactly when every column can hold its field; fields without a column never matter |
| Schema.ShippedSchemaIsWellFormed | packages/core/src/storage/schema.ts:51-258 | the shipped tables have distinct names and columns, parents before children and text keys to ids |
| Schema.ShippedKeys | packages/core/src/storage/schema.ts:67-241 | these are all foreign keys of the shipped schema |
| Tables.UpsertKeepsIntegrity | adapters/sqlite/src/index.ts:158-173 | NOT NULL, UNIQUE and foreign keys hold after every upsert |
| Tables.UpdateWritesWholeRow | adapters/sqlite/src/index.ts:160-172 | assigning every column but the id its excluded value turns the old row into the whole new one |
| Tables.UpsertChangesOneRow | adapters/sqlite/src/index.ts:164-172 | an upsert leaves the new row under that id and no child row or other row changed |
| Replacement.ReplaceRefusedExactly | adapters/sqlite/src/index.ts:164-172 | INSERT OR REPLACE of a row that the upsert lets through is refused exactly for a RESTRICT reference into the cascade closure or a NO ACTION one, from a row that stays, to another row of it |
| Replacement.ReplaceLosesTheClosure | adapters/sqlite/src/index.ts:164-172 | where it goes through it loses exactly the other rows of the cascade closure |
| Replacement.ReplaceAgreesExactly | adapters/sqlite/src/index.ts:164-172 | replacing a stored row does the same as the upsert exactly if no other row cascades from it and no RESTRICT reference holds it |
| Tables.UpsertRefusedExactly | adapters/sqlite/src/index.ts:61-72 | an upsert goes through exactly when the new row keeps its own constraints and clashes with no other row |
| Cascade.DoomedIsClosure | adapters/sqlite/src/index.ts:65-69 | one pass over the tables finds exactly the rows that a chain of cascading references leads to |
| Cascade.ChainIsBounded | adapters/sqlite/src/index.ts:112-115 | no cascade chain is longer than the schema, because parents precede children |
| Cascade.DeleteIsExact | adapters/sqlite/src/index.ts:184-196 | a delete is refused exactly when some row of the cascade closure is held by a reference that does not cascade; otherwise it removes exactly the closure and keeps every constraint |
| Cascade.DeleteOfAbsentRow | adapters/sqlite/src/index.ts:188-189 | deleting a row that is not there changes nothing |
| Filters.SafeCharExactly | adapters/sqlite/src/index.ts:37 | the characters of a safe field name, one by one |
| Filters.TypedClauses | adapters/sqlite/src/index.ts:231-256 | the clauses select exactly the rows that match the filter after the cursor; an unsafe field name is a validation error |
| Filters.DocClauses | adapters/sqlite/src/index.ts:293-304 | the same for the document table |
| Filters.TablesAnswerAlike | adapters/sqlite/src/index.ts:231-249 | a filter selects the same losslessly held documents in both kinds of tables exactly if each of its clauses compares alike, column kind by column kind, or both tables can find nothing |
| Filters.IllTypedFilterDiffers | adapters/sqlite/src/index.ts:241-249 | a number in a text column is such a clause that does not |
| Ordering.LessByFirstDifference | adapters/sqlite/src/index.ts:258 | one id is less than another exactly if at their first difference it ends or has the smaller code point |
| Ordering.SortedIsAscending | adapters/sqlite/src/index.ts:258 | ordering by id lists each matching id once, strictly ascending |
| Ordering.AscendingIsUnique | adapters/sqlite/src/index.ts:258 | there is only one ascending list of the same ids |
| Paging.PageFacts | adapters/sqlite/src/index.ts:257-266 | a page is ascending, matches, lies after its cursor, and is no longer than the limit, and has a next cursor only when full, its own last id |
| Paging.PageLeavesNothingOut | adapters/sqlite/src/index.ts:257-266 | a matching id after the cursor is on the page or after the next cursor |
| Paging.PageStopsShort | adapters/sqlite/src/index.ts:261-266 | a page with a next cursor is followed by another matching id |
| Paging.WalkUnderWrites | adapters/sqlite/src/index.ts:293-315 | in a completed walk with any writes between pages, ids are strictly ascending overall, each was matching when read, and all that matched throughout are returned |
| Paging.WalkOverUnchangedStore | adapters/sqlite/src/index.ts:231-267 | over an unchanged store a completed walk has max(1, ceil(n / limit)) pages, which are together the sorted ids |
| Paging.WalkEnds | adapters/sqlite/src/index.ts:231-267 | a walk over an unchanged store comes to its end |
| Paging.ClampLimit | adapters/sqlite/src/index.ts:204 | a limit from 1 to 500 is kept, a smaller or greater one becomes 1 or 500, and the default is 50 |
| Statements.RunKeepsSane | adapters/sqlite/src/index.ts:153-196 | all constraints hold after any run of puts and deletes, every document is under its own id, and every row is what some document with its id is written as |
| Statements.ExecIsTrace | adapters/sqlite/src/index.ts:269-282 | running a transaction body has the effect of the flat sequence of its writes, inner transactions and caught throws included |
| Statements.ExecNext | adapters/sqlite/src/index.ts:269-282 | statement by statement: an empty body changes nothing, after a throw no statement has any effect, until then each acts on what those before it left, and an inner transaction keeps its writes even where its throw is caught |
| Statements.ThrowsExactly | adapters/sqlite/src/index.ts:269-291 | a body throws an error if and only if some statement of it, at any depth and in no caught inner body, is come to and is a throw of that error or an insisted write that fails with it there |
| Queries.FindsExactly | adapters/sqlite/src/index.ts:231-256 | a query selects an id if and only if the document that a read of it returns has each field of the filter with a value that the filter value finds there: equal in a column after the conversion of its kind, equal in JSON but for true as 1, false as 0 and a text equal to the JSON text of an array or object |
| Queries.FindsEqual | adapters/sqlite/src/index.ts:231-256 | with filter values of the fields' kinds, a query selects exactly the documents that have exactly those values |
| SqliteStorage.SqliteStorage.constructor | adapters/sqlite/src/index.ts:77-133 | a new store has one empty table per specification and satisfies every constraint |
| SqliteStorage.SqliteStorage.Get | adapters/sqlite/src/index.ts:135-151 | a read gives the document of the stored row or the stored document, or nothing if there is none |
| SqliteStorage.SqliteStorage.Put | adapters/sqlite/src/index.ts:153-182 | a put has the effect of its statement or fails and leaves the database as it was |
| SqliteStorage.SqliteStorage.Delete | adapters/sqlite/src/index.ts:184-196 | a delete has the effect of its statement or fails and leaves the database as it was |
| SqliteStorage.SqliteStorage.CollectDoomed | adapters/sqlite/src/index.ts:112-115 | the table-by-table loop collects the rows that go |
| SqliteStorage.SqliteStorage.Select | adapters/sqlite/src/index.ts:231-256 | the query selects the matching ids after the cursor |
| SqliteStorage.SqliteStorage.Query | adapters/sqlite/src/index.ts:198-212 | a query returns, in strictly ascending id order, at most the limit of documents, each as it reads, satisfying the filter and after the cursor; it leaves none of those out but the ones after its next cursor, which is the id of the last one and there exactly if there are such |
| Queries.ReadAsEach | adapters/sqlite/src/index.ts:262-266 | each item of a page is the document of the id at its place |
| SqliteStorage.SqliteStorage.Transaction | adapters/sqlite/src/index.ts:269-291 | at the outermost level a body in which a statement fails (as in Statements.ThrowsExactly) restores the database of BEGIN and resolves with that error, and any other commits the sequential effect of every write; an inner call joins, keeps its writes and rejects with the error |
| SqliteStorage.SqliteStorage.RunBody | adapters/sqlite/src/index.ts:272-280 | the body, calling back into the adapter, has exactly the effect and outcome of its specification |
| StorageGuarantees.PutRefusedExactly | adapters/sqlite/src/index.ts:153-182 | a put is refused as invalid exactly without a non-empty string id, and by a constraint exactly if its collection has a table and the row has NULL where none is allowed, a reference to no stored row, or the UNIQUE value of another row |
| StorageGuarantees.PutThenGet | adapters/sqlite/src/index.ts:153-182 | a stored document reads back unchanged exactly when its collection can hold it without loss |
| StorageGuarantees.PutIsHeld | adapters/sqlite/src/index.ts:153-182 | after a put the id is there and no other document of any collection reads differently |
| StorageGuarantees.PutIsFound | adapters/sqlite/src/index.ts:153-256 | after a put of a document held without loss, a filter with values of the fields' kinds selects its id exactly if the document has them; any filter selects every other id of every collection exactly if it did before |
| StorageGuarantees.DeleteTakesExactly | adapters/sqlite/src/index.ts:184-196 | a delete that goes through takes the document and every row that cascades from it, and every other document of every collection reads as before |
| StorageGuarantees.DeleteOfDocument | adapters/sqlite/src/index.ts:192 | in the document table a delete is never refused and takes the one document only |
| StorageGuarantees.WalkSeesEverythingThatStays | adapters/sqlite/src/index.ts:198-212 | over a cursor walk whose pages are answered from changing states of the store, documents come in strictly ascending id order, each satisfied the filter when one of the pages was read, and every document that satisfies it at each page comes exactly once |
| StorageGuarantees.DeleteContentType | packages/core/src/storage/schema.ts:124-126 | deleting a content type is refused exactly while some entry is of that type |
| StorageGuarantees.DeleteNeverRefused | packages/core/src/storage/schema.ts:77-240 | deleting any other row is never refused |

## Left out

- SQL text, JSON functions, indexes, WAL and busy-timeout settings, and the engine itself: the model gives the statements their meaning; comparing ids is by code point, as SQLite's binary collation does.
- Schema evolution by `ADD COLUMN`, `listCollections`, `rebuildIndex` and `close`: bookkeeping that no modelled property needs.
- JSON text, `Number(v)` and `String(v)` are parameters, of which only that parsing undoes stringifying is assumed; two JSON objects that differ in key order count as equal. Numbers are finite doubles with one zero; a text that converts to an infinite number is not modelled.
- The order in which the engine runs the actions of several foreign keys: tables that have a restricting key beside a cascading one are outside the model; the shipped schema has none.
- Independent callers racing into one connection: a transaction span has one logical caller.
- A COMMIT that itself fails.
- SqliteStorage.SqliteStorage.Transaction: a body is given as what one of its runs does; a body that branches on what it reads does one such sequence in each run, so nothing is lost for the property.
- The Postgres, MySQL, Mongo and file-system adapters and the journaled transaction: same contract over other drivers.
- Transparency.FreshExactly: rendering is a function of the address and the three contents; theme, SEO tags, consent, locales, and collection data that designer pages pull in are not part of the version stamp and not of the model.
- ContentService.EditKeepsRecord: of the lifecycle states only "published" is kept, and any transition is let through; field validation, sealing of sensitive fields, the audit log and scheduled jobs are left out. A transition allowed here and refused there only adds runs.
- Replacement.ReplaceLosesTheClosure: for a row that shares no UNIQUE value with another one, which REPLACE would delete as well.
- Tables.UpsertChangesOneRow: the row that is edited has the columns of its table, as every row of a reachable database has (`RunKeepsSane`).
- The front controller and the maintenance switch are state machines over values: their steps interleave as the event loop allows, but the closures' variables are fields of one state instead of being updated in place.
- Members-only gating, redirects, error pages, cookies, rate limiting, e-mail, plugin workers and asset streaming: input and output around the modelled core.
- RenderCache.RenderCache.Set: the tag list is stored by value; a caller that changes the array it passed is not modelled. Strings are sequences of code points, so lone surrogates do not occur.
- SHA-256 and base64 are an arbitrary function in the style scanner; lower-casing is an arbitrary function in the slug, assumed to leave a-z, 0-9 and dashes alone only where a fixed point is claimed.
- Maintenance.AnswersAreRecent: the clock does not run backwards; a site without storage, which always answers off, and a storage read that throws instead of reporting a failure are not modelled.
- The React panels, the bundled panel scripts, and `variantLabel`, `moneyWith`, `fmtDate`, `mapError` and `seoMetaTags`: they would only add easy members.
