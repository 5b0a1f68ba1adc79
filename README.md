# searchengine in Dafny

A Dafny model of the core of *searchengine*, a Spring application that
crawls a configured list of websites, indexes every page by the Russian
lemmas of its text, and answers ranked free-text queries. The model
covers four parts.

- **Text utilities.** URL normalisation, path extraction, the validation
  of the site list, and the lemmatizer. The lemmatizer folds ё, splits
  the text into Cyrillic words, maps each word to its normal form and
  counts the lemmas.
- **The crawl.** The crawl is run sequentially, as a depth-first walk over
  a finite web. It has a "seen URL" gate, a link filter, a "store this
  page?" test, and emits one buffered lemma and one index entry per
  distinct lemma.
- **The persistence pipeline.** This covers:
  - the page, lemma and index buffers;
  - the chunked JDBC batch insert, which writes generated ids back into
    the same entity objects;
  - the reconciliation that merges the lemmas buffered for the same
    (site, text) and repoints the index entries;
  - the single-page re-indexing path with its delete/decrement and
    insert-or-increment steps;
  - the coordinator that ties these together;
  - the indexing service's start/stop/index-page state machine.
- **The read side.** The search (guards, rare-enough lemmas, intersection
  of posting sets, relevance, ordering, paging), the snippet, and the
  statistics.

The modules follow the Java classes:

| file | module | models |
|---|---|---|
| wrappers.dfy | Wrappers | `Option` for a nullable reference, `Result` for a call that may throw |
| seqs.dfy | Seqs | sequence helpers: first occurrence, filters, unique keys, counts |
| model.dfy | Model | the entities Site, Page, Lemma and Index, their `equals`/`hashCode`, the `(int)` id cast |
| url_utils.dfy | UrlUtils | UrlUtils |
| sites_config.dfy | SitesConfig | SitesListConfig |
| lemmatizer.dfy | Lemmatizer | Lemmatizer |
| store.dfy | Store | the database behind the repositories, with its unique keys and auto-increment ids |
| batch_inserter.dfy | BatchInserter | BatchInserter and the JDBC connection |
| page_batch_inserter.dfy | PageBatch | PageBatchInserter |
| lemma_service.dfy | LemmaServices | LemmaService |
| index_service.dfy | IndexServices | IndexService and the index statement setter |
| site_service.dfy | SiteServices | SiteService |
| page_service.dfy | PageServices | PageService.buildPage |
| page_data.dfy | PageData | what one page contributes to the tables, and what re-indexing it must remove |
| coordinator.dfy | Coordinator | IndexingCoordinator |
| node.dfy | Nodes | Node |
| single_page.dfy | SinglePage | SinglePageIndexing |
| crawler.dfy | Crawler | PageCrawlerTask |
| indexing_service.dfy | IndexingServices | IndexingServiceImpl |
| snippet.dfy | Snippets | SnippetService |
| sorting.dfy | Sorting | `List.sort` with a key comparator |
| statistics.dfy | Statistics | StatisticsServiceImpl |
| search.dfy | Search | SearchServiceImpl |

## How the model is built

In-memory objects the source updates in place are Dafny classes with
`modifies` frames. These are the buffered Page, Lemma and Index entities,
the buffers, the coordinator, the crawler state, the indexing service and
the database.

A generated id lives in a small mutable cell that the entity holds. The
generic batch insert can therefore write it back through an accessor, just
as the statement setter's `setGeneratedId` does. An index entry holds a
reference to its Page and Lemma objects, so it sees ids written back after
it was built.

The database is a class whose state is four value tables: sites, pages,
lemmas and index rows. Each is a sequence of rows in insertion order, with
the unique keys the entity mappings declare and auto-increment ids. The
repository methods become functions over these tables, with the semantics
their JPQL or SQL states. The JDBC driver is an oracle, passed in as
functions:
- how many generated keys the j-th `executeBatch` returns;
- whether that `executeBatch` throws.

The stop flag, set by another thread, is an oracle too: the value seen at
the k-th read. The final lemma and index batches share one flag, so the
index batch reads on from where the lemma batch stopped reading
(`BatchInserter.Later` after `BatchInserter.ReadsBy`). That is after the
loop's last read, or, when an `executeBatch` inside the loop threw, right
after the read that bound the last row of that chunk. A stop the lemma
batch saw therefore stops the index batch before its first row.

Pure code becomes functions, each with lemmas about it. Loops become
methods whose `ensures` tie the result to those functions.

Where the source throws, the model returns `Failure` with a message naming
the exception. This covers a JPA non-unique result, a null unboxed into a
primitive, and `subList` with bad bounds.

Where the source is evidently wrong, both the code as written and the
corrected code are modelled (see Findings). The rest of the model uses the
corrected code: the search (`Search.RankPages`) uses the corrected
frequency lookup `GetLemmaFrequencyList`, where a query lemma with no row
counts as frequency 0 and is dropped, and the corrected paging
`PageBounds`. Single-page re-indexing uses the corrected `DeletePageData`,
which removes the old page of this site and only that page's postings.
## Model

| member | source | states |
|---|---|---|
| Seqs.Dedup | src/main/java/searchengine/services/indexing/impl/persistence/utils/LemmaService.java:76-80 | the distinct keys of a buffer, each once: exactly the keys that occur, with no repeats |
| Seqs.UniqueWhere | src/main/java/searchengine/repository/SiteRepository.java:11 | a single-result finder: nothing exactly when no row matches; the non-unique-result error exactly when two rows match; otherwise the only matching row |
| Seqs.Count | src/main/java/searchengine/services/indexing/impl/persistence/utils/LemmaService.java:79 | the size of a group is at most the buffer's length, and 0 exactly when its key does not occur |
| Seqs.DedupCountsSum | src/main/java/searchengine/services/indexing/impl/persistence/utils/LemmaService.java:76-80 | the group sizes of the distinct keys add up to the buffer's length: no buffered lemma is lost or counted twice |
| UrlUtils.RemoveAll | src/main/java/searchengine/services/indexing/impl/persistence/utils/UrlUtils.java:5 | `String.replace(pat, "")`: the result is never longer than the input, and an occurrence at the front makes it shorter by at least the pattern's length |
| UrlUtils.NormalizeSiteUrl | src/main/java/searchengine/services/indexing/impl/persistence/utils/UrlUtils.java:4-6 | the result is the URL with every "www." deleted and then at most one final '/' dropped; it is never longer than the input |
| UrlUtils.ExtractPath | src/main/java/searchengine/services/indexing/impl/persistence/utils/UrlUtils.java:8-10 | the extracted path is never longer than the full URL |
| UrlUtils.RemoveAllNoOccurrence | src/main/java/searchengine/services/indexing/impl/persistence/utils/UrlUtils.java:5-9 | a string with no occurrence of the pattern comes back unchanged |
| UrlUtils.RemoveAllAfter | src/main/java/searchengine/services/indexing/impl/persistence/utils/UrlUtils.java:9 | an occurrence after an occurrence-free prefix is deleted too and scanning resumes behind it, so removal is not limited to a leading occurrence |
| UrlUtils.ExtractPathOfChild | src/main/java/searchengine/services/indexing/impl/persistence/utils/UrlUtils.java:9 | `extractPath(base + p, base) == p` whenever p holds no occurrence of base |
| UrlUtils.ExtractPathOfRoot | src/main/java/searchengine/services/indexing/impl/persistence/utils/UrlUtils.java:9 | `extractPath(base, base)` is the empty path |
| UrlUtils.NormalizeIdentity | src/main/java/searchengine/services/indexing/impl/persistence/utils/UrlUtils.java:5 | a URL with no "www." and no final '/' is returned unchanged |
| UrlUtils.NormalizeDropsInnerWww | src/main/java/searchengine/services/indexing/impl/persistence/utils/UrlUtils.java:5 | a "www." in the middle of the URL is deleted as well |
| SitesConfig.AnyBlankEntry | src/main/java/searchengine/config/SitesListConfig.java:27 | the `anyMatch` scan is true exactly when some entry has a blank name or URL |
| SitesConfig.GetSites | src/main/java/searchengine/config/SitesListConfig.java:20-33 | an empty list fails with "The list of sites cannot be empty." (checked first); otherwise any entry with a blank name or URL fails with the blank-field error; a valid list is returned unchanged, and success happens exactly when the list is non-empty with no blank field |
| Model.Page.constructor | src/main/java/searchengine/model/Page.java:19-37 | a new page holds the given site, path, code and content and a fresh id cell that is still 0 (unset) |
| Model.Lemma.constructor | src/main/java/searchengine/model/Lemma.java:19-30 | a new lemma holds the given site, text and frequency and a fresh id cell that is still 0 |
| Model.IndexEntry.constructor | src/main/java/searchengine/model/Index.java:20-34 | a new index entry holds the given page reference, lemma reference and rank and a fresh id cell that is still 0 |
| Model.Int32 | src/main/java/searchengine/model/Site.java:48-51 | Java `int` wrap-around: the result lies in the signed 32-bit range, is congruent to the input modulo 2^32, and equals the input when that is already in range |
| Model.StringHash | src/main/java/searchengine/model/Site.java:50 | `String.hashCode` is a 32-bit value |
| Model.SiteEqualsIff | src/main/java/searchengine/model/Site.java:40-46 | two sites are equal iff their url and name are equal, so id, status, statusTime and lastError never matter |
| Model.SiteEqualsReflexiveAndTyped | src/main/java/searchengine/model/Site.java:42-43 | a site equals itself and never equals null or an object of another class |
| Model.SiteHashConsistent | src/main/java/searchengine/model/Site.java:48-51 | equal sites have equal hash codes |
| Model.PageEqualsIff | src/main/java/searchengine/model/Page.java:39-44 | two pages are equal iff their sites are equal (under Site equality) and their paths agree; id, code and content never matter; a page equals itself |
| Model.PageHashConsistent | src/main/java/searchengine/model/Page.java:41-49 | equal pages have equal hash codes, and null or another class is never equal |
| Model.LemmaEqualsIff | src/main/java/searchengine/model/Lemma.java:33-38 | two lemmas are equal iff their site (url, name) and text agree, with id and frequency ignored; a lemma equals itself |
| Model.LemmaKeysInterchangeable | src/main/java/searchengine/model/Lemma.java:33-43 | lemmas that differ only in frequency or id are equal both ways and hash alike, which is what keying a HashMap by them relies on; null or another class is never equal |
| Model.SiteEquals | src/main/java/searchengine/model/Site.java:40-46 | a site equals an object exactly when that is a site with the same url and name |
| Model.SiteHash | src/main/java/searchengine/model/Site.java:48-51 | `Objects.hash(url, name)` is a 32-bit value |
| Model.PageEquals | src/main/java/searchengine/model/Page.java:39-44 | a page equals an object exactly when that is a page whose site has the same url and name and whose path is the same |
| Model.PageHash | src/main/java/searchengine/model/Page.java:46-49 | `Objects.hash(site, path)` is a 32-bit value |
| Model.LemmaEquals | src/main/java/searchengine/model/Lemma.java:33-38 | a lemma equals an object exactly when that is a lemma with the same key (site url, site name, text) |
| Model.LemmaHash | src/main/java/searchengine/model/Lemma.java:40-43 | `Objects.hash(site, lemma)` is a 32-bit value |
| Lemmatizer.NormalizeText | src/main/java/searchengine/services/indexing/impl/morphology/Lemmatizer.java:69-71 | every ё becomes е and every Ё becomes Е, every other character is kept, so no ё or Ё is left |
| Lemmatizer.RunLength | src/main/java/searchengine/services/indexing/impl/morphology/Lemmatizer.java:17 | the leading run of [а-яА-ЯёЁ] characters: all its characters are word characters and the next one is not |
| Lemmatizer.Tokens | src/main/java/searchengine/services/indexing/impl/morphology/Lemmatizer.java:35 | every match of the word pattern is a non-empty run of Cyrillic letters |
| Lemmatizer.ToLower | src/main/java/searchengine/services/indexing/impl/morphology/Lemmatizer.java:36 | lowercasing maps each character through the Cyrillic case mapping and keeps the length |
| Lemmatizer.Survivors | src/main/java/searchengine/services/indexing/impl/morphology/Lemmatizer.java:36-39 | every surviving lemma passes both filters (not a service part of speech, length at least 3), and every token whose lemma passes them contributes it |
| Lemmatizer.LemmasOfTokens | src/main/java/searchengine/services/indexing/impl/morphology/Lemmatizer.java:36-37 | one normal form per token, in token order |
| Lemmatizer.SurvivorsAreFiltered | src/main/java/searchengine/services/indexing/impl/morphology/Lemmatizer.java:36-39 | the surviving lemmas are exactly the first normal forms of the lowercased tokens, filtered by the two tests, in text order |
| Lemmatizer.Counts | src/main/java/searchengine/services/indexing/impl/morphology/Lemmatizer.java:40 | `toMap(..., Integer::sum)`: the keys are the elements of the list and each value is its number of occurrences, at least 1 |
| Lemmatizer.CreateLemmaMap | src/main/java/searchengine/services/indexing/impl/morphology/Lemmatizer.java:33-41 | every key passes both filters and is a surviving lemma of the text; each value is that lemma's number of occurrences and is at least 1 |
| Lemmatizer.LemmaOrder | src/main/java/searchengine/services/indexing/impl/morphology/Lemmatizer.java:33-41 | the walk order of the lemma map lists each key once and lists exactly the keys |
| Lemmatizer.FindWordsWithQueryLemmas | src/main/java/searchengine/services/indexing/impl/morphology/Lemmatizer.java:43-62 | the result lists distinct surface tokens (after the ё fold, original case) that pass the same filters and whose normal form is a query lemma, and all of them |
| Lemmatizer.QueryMatches | src/main/java/searchengine/services/indexing/impl/morphology/Lemmatizer.java:45-59 | a token is kept exactly when its lemma passes the filters and is a query lemma |
| Lemmatizer.RunLengthOfRun | src/main/java/searchengine/services/indexing/impl/morphology/Lemmatizer.java:17 | a run of word characters followed by a non-word character is the whole leading run |
| Lemmatizer.TokensSplit | src/main/java/searchengine/services/indexing/impl/morphology/Lemmatizer.java:17 | a non-word character (a Latin letter, a digit, punctuation) separates the tokens before it from those after it and is never part of a token |
| Lemmatizer.TokensOfWord | src/main/java/searchengine/services/indexing/impl/morphology/Lemmatizer.java:17 | a whole Cyrillic word is one token |
| Lemmatizer.TokensOfNonWords | src/main/java/searchengine/services/indexing/impl/morphology/Lemmatizer.java:17 | a text with no Cyrillic letter has no tokens |
| Lemmatizer.NoCyrillicNoLemmas | src/main/java/searchengine/services/indexing/impl/morphology/Lemmatizer.java:33-41 | a text with no Cyrillic letter yields an empty lemma map |
| Lemmatizer.TokensHaveNoYo | src/main/java/searchengine/services/indexing/impl/morphology/Lemmatizer.java:69-71 | after the fold, no token contains ё or Ё |
| Lemmatizer.CountsSum | src/main/java/searchengine/services/indexing/impl/morphology/Lemmatizer.java:40 | the counts over the distinct elements add up to the length of the list |
| Lemmatizer.LemmaMapTotal | src/main/java/searchengine/services/indexing/impl/morphology/Lemmatizer.java:33-41 | the values of the lemma map add up to the number of surviving tokens |
| Lemmatizer.ConjunctionIsServicePart | src/main/java/searchengine/services/indexing/impl/morphology/Lemmatizer.java:64-67 | a word with an info string that carries the conjunction tag СОЮЗ after the normal form is a service part, so it is never kept as a lemma |
| Lemmatizer.NoTagLetterNoServicePart | src/main/java/searchengine/services/indexing/impl/morphology/Lemmatizer.java:64-67 | a word none of whose info strings holds a letter that starts a service tag is not a service part, and is kept when it has at least three characters |
| BatchInserter.Connection.constructor | src/main/java/searchengine/services/indexing/impl/persistence/batch/BatchInserter.java:19-20 | a new connection has the given auto-commit setting and no commit or rollback yet |
| BatchInserter.BoundFrom | src/main/java/searchengine/services/indexing/impl/persistence/batch/BatchInserter.java:26 | the loop from k stops at the first index where the stop flag reads true, or at the end of the list: every index before it reads false |
| BatchInserter.Bound | src/main/java/searchengine/services/indexing/impl/persistence/batch/BatchInserter.java:26 | the number of entities bound: all indices below it read the flag false, and if it is short of the list the flag read true there |
| BatchInserter.FullChunks | src/main/java/searchengine/services/indexing/impl/persistence/batch/BatchInserter.java:32-35 | execution j inside the loop sends rows j*b .. j*b+b and back-fills the same entities, i - batchSize + 1 .. i |
| BatchInserter.TailSize | src/main/java/searchengine/services/indexing/impl/persistence/batch/BatchInserter.java:39-40 | the final partial batch has fewer than batchSize rows and no more rows than were bound |
| BatchInserter.PlanWith | src/main/java/searchengine/services/indexing/impl/persistence/batch/BatchInserter.java:26-44 | the executions of one call stay within the list: full chunks for every batchSize bound entities, then one final chunk for the rest |
| BatchInserter.WithKeys | src/main/java/searchengine/services/indexing/impl/persistence/batch/BatchInserter.java:33-41 | row k of an execution receives the auto-increment key base + k |
| BatchInserter.Succeeded | src/main/java/searchengine/services/indexing/impl/persistence/batch/BatchInserter.java:33-50 | the executions that run before the first one that throws; all before it succeed and, if it exists, that one fails |
| BatchInserter.SucceededFrom | src/main/java/searchengine/services/indexing/impl/persistence/batch/BatchInserter.java:33-50 | the same count from execution j on |
| BatchInserter.KeysOf | src/main/java/searchengine/services/indexing/impl/persistence/batch/BatchInserter.java:63-66 | the generated keys of one execution are as many as the driver returns, at most the rows sent |
| BatchInserter.AssignGeneratedKeys | src/main/java/searchengine/services/indexing/impl/persistence/batch/BatchInserter.java:60-76 | writes min(count, keys returned) ids, the q-th key (cast to 32 bits by the setters) into entity startIndex + q, and changes no other entity's id |
| BatchInserter.ExecuteChunk | src/main/java/searchengine/services/indexing/impl/persistence/batch/BatchInserter.java:33-42 | an execution succeeds unless the driver fails or the rows sent so far break a unique key; on success exactly the entities from its target get their keys, nothing changes otherwise |
| BatchInserter.ExecuteFullChunk | src/main/java/searchengine/services/indexing/impl/persistence/batch/BatchInserter.java:32-35 | the j-th execution inside the loop extends the count of successful executions by one if it succeeds, and the ids become those of the first j or j+1 full chunks |
| BatchInserter.FailureStopsFullChunks | src/main/java/searchengine/services/indexing/impl/persistence/batch/BatchInserter.java:48-50 | a failure inside the loop is where the run of executions stops |
| BatchInserter.BindAndExecute | src/main/java/searchengine/services/indexing/impl/persistence/batch/BatchInserter.java:25-37 | the for loop binds Bound entities; it succeeds iff every full chunk succeeds, and the ids are exactly those written by the successful full chunks |
| BatchInserter.TailStep | src/main/java/searchengine/services/indexing/impl/persistence/batch/BatchInserter.java:39-44 | the loop followed by the final execution has the effect of the whole plan |
| BatchInserter.ExecuteTail | src/main/java/searchengine/services/indexing/impl/persistence/batch/BatchInserter.java:39-44 | the final execution runs only when the loop succeeded and left a partial batch; the ids afterwards are those of the successful executions of the whole plan |
| BatchInserter.Complete | src/main/java/searchengine/services/indexing/impl/persistence/batch/BatchInserter.java:46-53 | success commits exactly once and the bound rows are kept with their keys; failure rolls back exactly once and keeps nothing; auto-commit is restored on both paths |
| BatchInserter.BatchInsertAsWritten | src/main/java/searchengine/services/indexing/impl/persistence/batch/BatchInserter.java:13-58 | batchInsert as written, final batch targeting entities[size - remaining ..]: commits iff every execution of that plan succeeds, the committed rows are the bound rows with consecutive keys, each entity's id is the one the successful executions wrote or its old one, auto-commit is restored, and the SQL error is swallowed (a RolledBack outcome, no exception) |
| BatchInserter.BatchInsert | src/main/java/searchengine/services/indexing/impl/persistence/batch/BatchInserter.java:13-58 | the same with the final batch targeting the entities it sent; services use this one; it also gives how many times it read the stop flag, as BatchInserter.ReadsBy counts |
| BatchInserter.FullChunksAssign | src/main/java/searchengine/services/indexing/impl/persistence/batch/BatchInserter.java:32-69 | when every key comes back, the full chunks give entity k the key of row k exactly when k lies in one of them |
| BatchInserter.PlanAssignsSentRows | src/main/java/searchengine/services/indexing/impl/persistence/batch/BatchInserter.java:26-70 | with every key returned, each bound entity k receives the key of row k and no other entity receives one (with no stop: every entity, the k-th key to the k-th entity) |
| BatchInserter.PlansAgreeWithoutStop | src/main/java/searchengine/services/indexing/impl/persistence/batch/BatchInserter.java:39-43 | without a stop the as-written and corrected plans coincide |
| BatchInserter.AsWrittenMisassigns | src/main/java/searchengine/services/indexing/impl/persistence/batch/BatchInserter.java:39-43 | as written, after a stop that leaves a partial batch, the last entity of the list (never inserted) receives the key of the last row that was inserted |
| BatchInserter.StoppedTailMisassigned | src/main/java/searchengine/services/indexing/impl/persistence/batch/BatchInserter.java:39-43 | five entities, batch size 1000, stop before the third: rows 0 and 1 are inserted but their keys go to entities 3 and 4, and entities 0 and 1 keep their old ids |
| BatchInserter.EmptyListPlan | src/main/java/searchengine/services/indexing/impl/persistence/batch/BatchInserter.java:25-44 | an empty list executes no batch and so assigns no id |
| BatchInserter.CommittedRowsAccepted | src/main/java/searchengine/services/indexing/impl/persistence/batch/BatchInserter.java:41-46 | a committed call sent every bound row, so the committed rows pass the database's unique-key check |
| BatchInserter.ExecutedBy | src/main/java/searchengine/services/indexing/impl/persistence/batch/BatchInserter.java:33-41 | the executions of a call are a prefix of its plan |
| BatchInserter.CommittedBy | src/main/java/searchengine/services/indexing/impl/persistence/batch/BatchInserter.java:46-50 | a call commits either nothing or all bound rows with their consecutive keys |
| BatchInserter.CommittedByAccepted | src/main/java/searchengine/services/indexing/impl/persistence/batch/BatchInserter.java:46-50 | the committed rows always pass the database's unique-key check |
| BatchInserter.CommittedAllAssigns | src/main/java/searchengine/services/indexing/impl/persistence/batch/BatchInserter.java:26-46 | when the call commits every row and the driver returns every key, entity k holds the key of row k, cast to int |
| BatchInserter.CommittedAssignsEach | src/main/java/searchengine/services/indexing/impl/persistence/batch/BatchInserter.java:26-46 | the same for every entity of the list at once |
| BatchInserter.Reads | src/main/java/searchengine/services/indexing/impl/persistence/batch/BatchInserter.java:26 | the loop reads the flag once per bound entity and once more when it stopped early, so at least Bound and at most n times, and the last read was the set one exactly when it ended early |
| BatchInserter.StopCarriesOver | src/main/java/searchengine/services/indexing/impl/persistence/batch/BatchInserter.java:26 | two loops over one flag that stays set: when the last read the first made saw the stop, the second binds nothing |
| BatchInserter.StopBetweenLoops | src/main/java/searchengine/services/indexing/impl/persistence/batch/BatchInserter.java:26 | a stop after the first loop's last read lets the first loop bind every entity and the second none |
| BatchInserter.ReadsBy | src/main/java/searchengine/services/indexing/impl/persistence/batch/BatchInserter.java:26-36 | the reads one batchInsert call makes: as many as its loop makes when every full-chunk execution succeeds; when the e-th one throws, exactly (e+1) times the chunk size, a multiple of it within the bound entities, and never more than the loop would make |
| BatchInserter.FirstChunkThrows | src/main/java/searchengine/services/indexing/impl/persistence/batch/BatchInserter.java:26-33 | when the first execution throws after a full chunk, the call read the flag exactly chunk-size times |
| BatchInserter.ThrowingChunkLeavesReads | src/main/java/searchengine/services/indexing/impl/persistence/batch/BatchInserter.java:26-33 | 2000 rows in chunks of 1000, the first execution throwing and the stop set from read 1500 on: the lemma call reads the flag 1000 times and the loop after it binds 500 entities |
| PageBatch.PageSlots | src/main/java/searchengine/services/indexing/impl/persistence/batch/setters/PageStatementSetter.java:19-22 | the id field of each page, in list order, which setGeneratedId writes |
| PageBatch.PageRows | src/main/java/searchengine/services/indexing/impl/persistence/batch/setters/PageStatementSetter.java:12-17 | each page binds its path, its site's id, its code and its content |
| PageBatch.PageBatchBindsAll | src/main/java/searchengine/services/indexing/impl/persistence/batch/PageBatchInserter.java:52-59 | page inserts pass a fresh stop flag that is never set, so every page of the batch is bound |
| PageBatch.PageBatchAllOrNothing | src/main/java/searchengine/services/indexing/impl/persistence/batch/PageBatchInserter.java:46-60 | a page batch commits all its pages with consecutive keys from the table's next id, or none; with every key returned, each page holds its row's key |
| PageBatch.PageBatchInserter.constructor | src/main/java/searchengine/services/indexing/impl/persistence/batch/PageBatchInserter.java:19 | the buffer starts empty |
| PageBatch.PageBatchInserter.AddPage | src/main/java/searchengine/services/indexing/impl/persistence/batch/PageBatchInserter.java:24-27 | the page is appended; when the buffer reaches 100 it is all sent as one batch insert and the buffer is left empty, so fewer than 100 pages remain on return |
| PageBatch.PageBatchInserter.Flush | src/main/java/searchengine/services/indexing/impl/persistence/batch/PageBatchInserter.java:29-39 | an empty buffer issues no insert; otherwise the whole buffer, in arrival order, goes to one batch insert and the buffer is empty whatever the insert's outcome |
| PageBatch.PageBatchInserter.FlushRemainingPages | src/main/java/searchengine/services/indexing/impl/persistence/batch/PageBatchInserter.java:41-44 | the last partial batch is sent the same way and the buffer ends empty |
| PageBatch.PageBatchInserter.ClearBuffer | src/main/java/searchengine/services/indexing/impl/persistence/batch/PageBatchInserter.java:62-64 | the buffer is emptied and nothing is inserted |
| Store.SiteById | src/main/java/searchengine/repository/SiteRepository.java:13 | the site with that id when one is stored, none exactly when no stored site has it |
| Store.SiteByUrl | src/main/java/searchengine/repository/SiteRepository.java:11 | no result exactly when no site has that url; a result is a stored site with that url; two such sites make the single-result finder throw |
| Store.ReplaceSite | src/main/java/searchengine/repository/SiteRepository.java:9 | saving a loaded site replaces the row with its id and keeps every other row |
| Store.PageByPath | src/main/java/searchengine/repository/PageRepository.java:13 | `findByPath` matches the path on every site: none exactly when no page has the path, a failure exactly when two pages do, otherwise the one stored page with that path |
| Store.PageById | src/main/java/searchengine/repository/PageRepository.java:28 | the stored page with that id, none exactly when no page has it |
| Store.PagesOfSite | src/main/java/searchengine/repository/PageRepository.java:14 | exactly the stored pages of that site |
| Store.WithoutPage | src/main/java/searchengine/repository/PageRepository.java:12 | deleting a page by id keeps every other page and nothing else |
| Store.LemmaOnSite | src/main/java/searchengine/repository/LemmaRepository.java:19 | the stored lemma with that text on that site, none exactly when there is none |
| Store.LemmasWithTextIn | src/main/java/searchengine/repository/LemmaRepository.java:21 | `findByLemmaIn`: exactly the lemma rows, of every site, whose text is in the set |
| Store.MergeLemmas | src/main/java/searchengine/repository/LemmaRepository.java:18 | `saveAll` of loaded lemmas keeps the number of rows |
| Store.WithoutLemmas | src/main/java/searchengine/repository/LemmaRepository.java:18 | `deleteAll(list)` removes exactly the rows with those ids |
| Store.LemmasOfSite | src/main/java/searchengine/repository/LemmaRepository.java:31-35 | exactly the lemma rows of that site |
| Store.FrequencyOnSite | src/main/java/searchengine/repository/LemmaRepository.java:37-41 | null exactly when the site has no such lemma, otherwise that row's frequency |
| Store.FrequencySum | src/main/java/searchengine/repository/LemmaRepository.java:43-47 | `SUM` over zero rows is null; otherwise the frequencies of the lemma on every site added up |
| Store.LemmaIdsOf | src/main/java/searchengine/repository/LemmaRepository.java:49-65 | exactly the ids of the lemma's rows on every site |
| Store.LemmaIdOnSite | src/main/java/searchengine/repository/LemmaRepository.java:55-59 | null exactly when the site has no such lemma, otherwise its id |
| Store.WithoutLemmaIndices | src/main/java/searchengine/repository/IndexRepository.java:29 | `deleteByLemmaId` removes exactly the index rows of that lemma, on every page of every site |
| Store.PageIdsOfLemma | src/main/java/searchengine/repository/IndexRepository.java:31-35 | exactly the pages with an index row for that lemma |
| Store.PageIdsOfLemmas | src/main/java/searchengine/repository/IndexRepository.java:49-53 | exactly the pages with an index row for one of those lemmas |
| Store.RankOf | src/main/java/searchengine/repository/IndexRepository.java:37-41 | null exactly when the page has no row for the lemma, otherwise that row's rank |
| Store.TotalRank | src/main/java/searchengine/repository/IndexRepository.java:55-59 | `SUM` over zero rows is null; otherwise the ranks of the page's rows for those lemmas added up |
| Store.InsertOrIncrementSpec | src/main/java/searchengine/repository/LemmaRepository.java:23-29 | the upsert keeps (lemma, site_id) unique and the ids increasing; the row ends with frequency one more than before, or is new with frequency 1 and the next id; every other row is unchanged |
| Store.FilterKeepsPages | src/main/java/searchengine/model/Page.java:15-17 | deleting page rows keeps (path, site_id) unique and the ids increasing |
| Store.FilterKeepsLemmas | src/main/java/searchengine/model/Lemma.java:15-17 | deleting lemma rows keeps (lemma, site_id) unique and the ids increasing |
| Store.FilterKeepsIndices | src/main/java/searchengine/model/Index.java:13-19 | deleting index rows keeps (page_id, lemma_id) unique and the ids increasing |
| Store.MergeLemmasKeepsKeys | src/main/java/searchengine/repository/LemmaRepository.java:18 | `saveAll` of rows that changed only their frequency keeps every row's id and key, so the table stays valid |
| Store.EmptyTables | src/main/java/searchengine/model/Site.java:18-20 | a new database has empty tables that satisfy every unique key |
| Store.InsertSite | src/main/java/searchengine/model/Site.java:18-20 | saving a new site appends it with the next id; the other tables are unchanged and the store stays valid |
| Store.SaveSite | src/main/java/searchengine/repository/SiteRepository.java:9 | saving a loaded site replaces the row with its id; the other tables are unchanged and the store stays valid |
| Store.InsertPage | src/main/java/searchengine/model/Page.java:15-17 | a new page is appended with the next id, or fails exactly when a page with the same (path, site_id) exists, so the store never holds two such pages |
| Store.DeletePage | src/main/java/searchengine/repository/PageRepository.java:12 | deleting a page by id removes that row only and keeps the store valid |
| Store.UpsertLemma | src/main/java/searchengine/repository/LemmaRepository.java:23-29 | after the upsert the (lemma, site) row is new with frequency 1, or the old row incremented; other rows and tables are unchanged and the store stays valid |
| Store.SaveLemmas | src/main/java/searchengine/repository/LemmaRepository.java:18 | each row takes the values of the first update with its id and keeps its id; rows without an update are unchanged; the store stays valid |
| Store.DeleteLemmas | src/main/java/searchengine/repository/LemmaRepository.java:18 | the rows with those ids are removed and the store stays valid |
| Store.DeleteIndicesOfLemma | src/main/java/searchengine/repository/IndexRepository.java:29 | every index row of the lemma goes, the rest stays, and the store stays valid |
| Store.InsertIndex | src/main/java/searchengine/repository/IndexRepository.java:20-27 | a new row is appended with the next id, or fails exactly when (page_id, lemma_id) is taken |
| Store.ClearIndices | src/main/java/searchengine/repository/IndexRepository.java:18 | `deleteAll` empties the index table and changes no other table |
| Store.ClearLemmas | src/main/java/searchengine/repository/LemmaRepository.java:18 | `deleteAll` empties the lemma table and changes no other table |
| Store.ClearPages | src/main/java/searchengine/repository/PageRepository.java:12 | `deleteAll` empties the page table and changes no other table |
| Store.ClearSites | src/main/java/searchengine/repository/SiteRepository.java:9 | `deleteAll` empties the site table and changes no other table |
| Store.AfterPageBatch | src/main/java/searchengine/services/indexing/impl/persistence/batch/PageBatchInserter.java:46-60 | the rows a page batch commits are appended with consecutive keys, and the store stays valid (a batch that breaks (path, site_id) commits nothing) |
| Store.AfterLemmaBatch | src/main/java/searchengine/services/indexing/impl/persistence/utils/LemmaService.java:59-73 | the same for a lemma batch and (lemma, site_id) |
| Store.AfterIndexBatch | src/main/java/searchengine/services/indexing/impl/persistence/utils/IndexService.java:44-58 | the same for an index batch and (page_id, lemma_id) |
| Store.Database.constructor | src/main/java/searchengine/model/Site.java:18-20 | a new database has empty tables |
| Store.Database.InsertPageBatch | src/main/java/searchengine/services/indexing/impl/persistence/batch/BatchInserter.java:13-58 | a batch insert over pages: the tables become AfterPageBatch, the outcome commits iff every execution succeeded, and each id field holds the key the successful executions wrote or its old value |
| Store.Database.InsertLemmaBatch | src/main/java/searchengine/services/indexing/impl/persistence/batch/BatchInserter.java:13-58 | the same over lemmas; the number of flag reads is Store.LemmaBatchReads; when every row commits and every key comes back, slot k holds the k-th new lemma id |
| Store.LemmaBatchReads | src/main/java/searchengine/services/indexing/impl/persistence/batch/BatchInserter.java:26-36 | the flag reads of the lemma batch, never more than its loop would make |
| Store.Database.InsertIndexBatch | src/main/java/searchengine/services/indexing/impl/persistence/batch/BatchInserter.java:13-58 | the same over index rows |
| Store.MergeLemmasKeepsIds | src/main/java/searchengine/repository/LemmaRepository.java:18 | `saveAll` keeps every row's id |
| Store.AppendBreaksKey | src/main/java/searchengine/model/Page.java:15-17 | appending a row keeps a unique key unique exactly when no row already has that key |
| Store.AddedIdsOk | src/main/java/searchengine/model/Site.java:18-20 | rows appended with keys next, next + 1, ... keep the ids increasing and below the new next id |
| Store.InsertsNewLemma | src/main/java/searchengine/repository/LemmaRepository.java:23-29 | a (lemma, site) pair not yet stored is appended with frequency 1 and the next id, every other row kept |
| Store.IncrementsExistingLemma | src/main/java/searchengine/repository/LemmaRepository.java:23-29 | a stored (lemma, site) pair keeps its id and gains 1 in frequency, every other row kept |
| LemmaServices.LemmaKeys | src/main/java/searchengine/model/Lemma.java:33-43 | each buffered lemma's HashMap key: its site's url and name and its text |
| LemmaServices.LemmaSlots | src/main/java/searchengine/services/indexing/impl/persistence/batch/setters/LemmaStatementSetter.java:18-20 | the id field of each lemma, in buffer order |
| LemmaServices.LemmaRows | src/main/java/searchengine/services/indexing/impl/persistence/batch/setters/LemmaStatementSetter.java:11-15 | each lemma binds its text, its site's id and its frequency |
| LemmaServices.LastSite | src/main/java/searchengine/services/indexing/impl/persistence/utils/LemmaService.java:84-88 | the site of the last buffered lemma with that key, none exactly when no lemma has the key |
| LemmaServices.PrefixStep | src/main/java/searchengine/services/indexing/impl/persistence/utils/LemmaService.java:84-88 | one more lemma adds its key and becomes the last lemma of that key |
| LemmaServices.Grouped | src/main/java/searchengine/services/indexing/impl/persistence/utils/LemmaService.java:76-80 | `groupingBy(key, counting())`: one entry per key of the buffer, whose value is the number of buffered lemmas with that key |
| LemmaServices.MergedFrequenciesTotal | src/main/java/searchengine/services/indexing/impl/persistence/utils/LemmaService.java:76-91 | over the distinct keys, the merged frequencies add up to the number of buffered lemmas |
| LemmaServices.Reconcile | src/main/java/searchengine/services/indexing/impl/persistence/utils/LemmaService.java:76-89 | one entry per key of the buffer; each value is a new lemma with an unset id (0), that key's site and text, and the group size cast to int as frequency; distinct keys get distinct objects |
| LemmaServices.MergedFromSnoc | src/main/java/searchengine/services/indexing/impl/persistence/utils/LemmaService.java:84-89 | one pass of the loop: the merged lemma of the next buffered lemma, put under its key, extends the map from the prefix to one more lemma |
| LemmaServices.LemmaService.constructor | src/main/java/searchengine/services/indexing/impl/persistence/utils/LemmaService.java:21 | the buffer starts empty |
| LemmaServices.LemmaService.SaveAll | src/main/java/searchengine/services/indexing/impl/persistence/utils/LemmaService.java:27-29 | the lemma table becomes SaveLemmas of the updates |
| LemmaServices.LemmaService.SaveOrUpdate | src/main/java/searchengine/services/indexing/impl/persistence/utils/LemmaService.java:31-34 | the upsert runs, then the row is loaded; in a valid store it is the new row with frequency 1 or the old row incremented |
| LemmaServices.LemmaService.DeleteAll | src/main/java/searchengine/services/indexing/impl/persistence/utils/LemmaService.java:40-42 | the lemma table is emptied |
| LemmaServices.LemmaService.DeleteAllFromList | src/main/java/searchengine/services/indexing/impl/persistence/utils/LemmaService.java:96-98 | the rows of the listed lemmas are deleted |
| LemmaServices.LemmaService.AddLemma | src/main/java/searchengine/services/indexing/impl/persistence/utils/LemmaService.java:44-57 | a new lemma with the given site, text and frequency and an unset id is appended to the buffer, and that same object is returned |
| LemmaServices.LemmaService.CreateBatchInsertForLemma | src/main/java/searchengine/services/indexing/impl/persistence/utils/LemmaService.java:59-73 | the whole buffer, in order, goes to one batch insert of chunk size 1000 that reads the shared stop flag, and the number of its reads is the one Store.LemmaBatchReads gives; when every row commits and every key comes back, the k-th buffered lemma holds the k-th new id |
| LemmaServices.LemmaService.UpdatingTheDuplicateKey | src/main/java/searchengine/services/indexing/impl/persistence/utils/LemmaService.java:75-94 | the returned map has one entry per key of the old buffer, each a fresh lemma with that key, id 0 and frequency equal to its group size; the buffer becomes exactly these lemmas, one per distinct key |
| LemmaServices.LemmaService.ClearBuffer | src/main/java/searchengine/services/indexing/impl/persistence/utils/LemmaService.java:100-102 | the buffer is emptied |
| IndexServices.EntrySlots | src/main/java/searchengine/services/indexing/impl/persistence/batch/setters/IndexStatementSetter.java:19-21 | the id field of each index entry, in buffer order |
| IndexServices.IndexRows | src/main/java/searchengine/services/indexing/impl/persistence/batch/setters/IndexStatementSetter.java:12-16 | each entry binds the current id of its page, the current id of its lemma and its rank |
| IndexServices.IndexService.constructor | src/main/java/searchengine/services/indexing/impl/persistence/utils/IndexService.java:24 | the buffer starts empty |
| IndexServices.IndexService.Save | src/main/java/searchengine/services/indexing/impl/persistence/utils/IndexService.java:30-32 | one index row is inserted with the next id, or the store is unchanged when (page_id, lemma_id) is taken |
| IndexServices.IndexService.UpdateLemmaIdInIndex | src/main/java/searchengine/services/indexing/impl/persistence/utils/IndexService.java:34-42 | every entry whose lemma's key is in the map now points to the mapped lemma, the others keep theirs; the buffer itself, the page references and the ranks do not change; when each map value has its own key, no entry changes site or lemma text |
| IndexServices.IndexService.CreateBatchInsertForIndex | src/main/java/searchengine/services/indexing/impl/persistence/utils/IndexService.java:44-58 | the whole buffer, in order, goes to one batch insert of chunk size 1000 that reads the shared stop flag |
| IndexServices.IndexService.AddIndex | src/main/java/searchengine/services/indexing/impl/persistence/utils/IndexService.java:60-66 | a new entry holding the given page reference, lemma reference and rank, with an unset id, is appended |
| IndexServices.IndexService.DeleteIndex | src/main/java/searchengine/services/indexing/impl/persistence/utils/IndexService.java:68-70 | every index row of that lemma is deleted, on every page |
| IndexServices.IndexService.DeleteAll | src/main/java/searchengine/services/indexing/impl/persistence/utils/IndexService.java:72-74 | the index table is emptied |
| IndexServices.IndexService.ClearBuffer | src/main/java/searchengine/services/indexing/impl/persistence/utils/IndexService.java:76-78 | the buffer is emptied |
| SiteServices.SiteOnPagePath | src/main/java/searchengine/services/indexing/impl/persistence/utils/SiteService.java:55-59 | none exactly when no stored site's url is a prefix of the path; otherwise the first stored site whose url is |
| SiteServices.ConfiguredSiteFor | src/main/java/searchengine/services/indexing/impl/persistence/utils/SiteService.java:47-50 | none exactly when no configured site's normalised url is a prefix of the path; otherwise the first configured site whose normalised url is |
| SiteServices.WithStatus | src/main/java/searchengine/services/indexing/impl/persistence/utils/SiteService.java:33-36 | the site takes the new status and error; id, url and name stay |
| SiteServices.SiteService.constructor | src/main/java/searchengine/services/indexing/impl/persistence/utils/SiteService.java:19 | the service works on the given store |
| SiteServices.SiteService.Save | src/main/java/searchengine/services/indexing/impl/persistence/utils/SiteService.java:21-30 | a new site row is inserted with the normalised url, the name, status INDEXING and no error, and returned |
| SiteServices.SiteService.UpdateStatus | src/main/java/searchengine/services/indexing/impl/persistence/utils/SiteService.java:32-39 | when a site has the id it is saved with the new status and error; when none has, the store is unchanged |
| SiteServices.UpdateStatusSetsStatus | src/main/java/searchengine/services/indexing/impl/persistence/utils/SiteService.java:32-39 | with ascending site ids the update touches exactly the rows with that id, giving each the status and error, and no other table |
| SiteServices.SiteService.GetSiteForOnePage | src/main/java/searchengine/services/indexing/impl/persistence/utils/SiteService.java:45-53 | a stored site whose url prefixes the path wins and nothing is written; otherwise the configuration is validated (its failure is returned), and the first configured site whose normalised url prefixes the path is saved and returned; with none the result is null and nothing is written |
| SiteServices.SiteService.DeleteAll | src/main/java/searchengine/services/indexing/impl/persistence/utils/SiteService.java:61-63 | the site table is emptied |
| PageServices.BuildPage | src/main/java/searchengine/services/indexing/impl/persistence/utils/PageService.java:32-39 | a fresh page with an unset id, the given site, status code and html, and the path cut from the page url by the site url |
| SiteServices.SiteForPage | src/main/java/searchengine/services/indexing/impl/persistence/utils/SiteService.java:45-53 | the site getSiteForOnePage settles on and the tables it leaves: a site it names has a url prefixing the path and is in those tables |
| PageData.RefCount | src/main/java/searchengine/repository/IndexRepository.java:22-23 | the number of index rows of a lemma id is at most the number of index rows |
| PageData.EmptyTablesConsistent | src/main/java/searchengine/services/indexing/impl/persistence/IndexingCoordinator.java:39-44 | empty tables are consistent: no lemma, no dangling index row |
| PageData.RefCountZero | src/main/java/searchengine/repository/IndexRepository.java:22-23 | a lemma id has no index rows exactly when its count is zero |
| PageData.RefCountSnoc | src/main/java/searchengine/repository/IndexRepository.java:21-27 | an appended index row adds one to its own lemma's count and nothing to any other |
| PageData.PageLemmaIds | src/main/java/searchengine/services/indexing/impl/persistence/IndexingCoordinator.java:102 | an id is among a page's lemma ids exactly when the page has an index row for it |
| PageData.Decremented | src/main/java/searchengine/services/indexing/impl/persistence/IndexingCoordinator.java:109-111 | a lemma among the given ids loses one from its frequency, every other lemma stays, in place |
| PageData.RemovePage | src/main/java/searchengine/services/indexing/impl/persistence/IndexingCoordinator.java:89-97 | the corrected removal keeps the tables' keys: the page row goes, exactly its index rows go, every other index row stays, each lemma it used loses one and goes once unused, and no counter moves |
| PageData.RefCountOffPage | src/main/java/searchengine/services/indexing/impl/persistence/IndexingCoordinator.java:107 | dropping a page's rows lowers a lemma's count by one exactly when the page had a row for it |
| PageData.RefCountOfMember | src/main/java/searchengine/repository/IndexRepository.java:22-23 | a lemma with an index row has a count of at least one |
| PageData.RemovePageConsistent | src/main/java/searchengine/services/indexing/impl/persistence/IndexingCoordinator.java:89-119 | the corrected removal keeps every lemma's frequency equal to its number of index rows and leaves no index row pointing to a missing page or lemma |
| PageData.RemovePageCounts | src/main/java/searchengine/services/indexing/impl/persistence/IndexingCoordinator.java:106-115 | after the corrected removal each remaining lemma's frequency is its number of index rows |
| PageData.RemovePageLemmaRefs | src/main/java/searchengine/services/indexing/impl/persistence/IndexingCoordinator.java:106-118 | after the corrected removal no index row points to a deleted lemma |
| PageData.RemovePagePageRefs | src/main/java/searchengine/services/indexing/impl/persistence/IndexingCoordinator.java:93-94 | after the corrected removal no index row points to the deleted page |
| PageData.PageOnSite | src/main/java/searchengine/services/indexing/impl/persistence/IndexingCoordinator.java:90-91 | none exactly when the site has no page at the path; otherwise the page of that site with that path |
| PageData.DeletePageData | src/main/java/searchengine/services/indexing/impl/persistence/IndexingCoordinator.java:89-97 | the corrected deletePageData keeps the tables valid and consistent, leaves no page of the site at the path, and keeps every page of every other site |
| PageData.OtherRowsOtherIds | src/main/java/searchengine/repository/PageRepository.java:12 | in a table with increasing ids, a row other than p has another id |
| PageData.KeyedRowIsUnique | src/main/java/searchengine/repository/PageRepository.java:12 | in a table with unique (path, site) keys, a row with another id has another key |
| PageData.NewPageHasNoPostings | src/main/java/searchengine/services/indexing/impl/parser/SinglePageIndexing.java:45 | a page just saved into consistent tables leaves them consistent and has no index row yet |
| PageData.UpsertShape | src/main/java/searchengine/repository/LemmaRepository.java:23-29 | the upsert changes one row only: the (site, text) row with one more, or a new last row with the next id and frequency 1; every other row stays and has another id |
| PageData.UpsertAppends | src/main/java/searchengine/repository/LemmaRepository.java:25-26 | a (site, text) not stored yet is appended as a new last row |
| PageData.UpsertIncrements | src/main/java/searchengine/repository/LemmaRepository.java:27 | a stored (site, text) row gains one in place; no other row changes |
| PageData.AddPostingConsistent | src/main/java/searchengine/services/indexing/impl/parser/SinglePageIndexing.java:47-50 | saveLemma then saveIndex of a text the page does not hold yet succeeds, keeps the tables consistent and adds the text to the page's postings |
| PageData.PostingIsNew | src/main/java/searchengine/services/indexing/impl/parser/SinglePageIndexing.java:47-50 | before its lemma is saved, the page holds no index row for it, and a lemma just inserted has no index row at all |
| PageData.PostingKeepsConsistent | src/main/java/searchengine/services/indexing/impl/parser/SinglePageIndexing.java:49 | the page's new index row keeps every frequency equal to its number of rows and every row pointing to a stored page and lemma |
| PageData.CountsAfterPosting | src/main/java/searchengine/repository/LemmaRepository.java:23-29 | after the upsert and one new index row for that lemma, every lemma's frequency is still its number of index rows |
| PageData.RefsAfterPosting | src/main/java/searchengine/repository/IndexRepository.java:21-27 | after the upsert and index insert, every index row still points to a stored lemma |
| PageData.PostingsAfterPosting | src/main/java/searchengine/services/indexing/impl/parser/SinglePageIndexing.java:47-50 | afterwards the page's rows point to lemmas of the site whose texts are the texts done so far plus the new one |
| PageData.IdsOf | src/main/java/searchengine/services/indexing/impl/persistence/IndexingCoordinator.java:118 | an id is in the set exactly when some row has it |
| PageData.ToUpdate | src/main/java/searchengine/services/indexing/impl/persistence/IndexingCoordinator.java:106-115 | lemmasToUpdate is no longer than the loaded rows |
| PageData.ToUpdateKeepsKeys | src/main/java/searchengine/services/indexing/impl/persistence/IndexingCoordinator.java:117 | saving lemmasToUpdate changes no lemma's key |
| PageData.CleanupStart | src/main/java/searchengine/services/indexing/impl/persistence/IndexingCoordinator.java:103-104 | before the loop no index row is removed and both lists are empty |
| PageData.CleanupStep | src/main/java/searchengine/services/indexing/impl/persistence/IndexingCoordinator.java:106-115 | one turn of the loop removes the lemma's index rows and adds the lemma, with one less, to lemmasToUpdate when its frequency is above 1, or to lemmasToDelete |
| PageData.AsWrittenCleanup | src/main/java/searchengine/services/indexing/impl/persistence/IndexingCoordinator.java:99-119 | deleteLemmaAndIndexForOnePage as written keeps the ids valid and changes neither sites nor pages |
| PageData.NamedIds | src/main/java/searchengine/services/indexing/impl/persistence/IndexingCoordinator.java:102 | the ids findByLemmaIn loads: exactly those of the stored lemmas, of any site, whose text is named |
| PageData.AsWrittenCleanupEffect | src/main/java/searchengine/services/indexing/impl/persistence/IndexingCoordinator.java:99-119 | for no text the cleanup changes nothing; otherwise its index rows are those not pointing at a lemma named by the texts, on any site, and its lemmas are the table with every named lemma one less frequent and those left at no page dropped, the shape of PageData.RemovePage with the named lemmas in place of the page's |
| PageData.AsWrittenCleanupIndices | src/main/java/searchengine/services/indexing/impl/persistence/IndexingCoordinator.java:102-107 | an index row stays exactly when its lemma's text is not named |
| PageData.AsWrittenCleanupLemmas | src/main/java/searchengine/services/indexing/impl/persistence/IndexingCoordinator.java:106-118 | a named lemma of frequency above 1 stays with one less, a named lemma of frequency 1 or less leaves no row with its id, every other lemma stays as it was |
| PageData.ToUpdateRows | src/main/java/searchengine/services/indexing/impl/persistence/IndexingCoordinator.java:109-111 | each row to update is a loaded row of frequency above 1 with one less, and every such row is there |
| PageData.ToDeleteRows | src/main/java/searchengine/services/indexing/impl/persistence/IndexingCoordinator.java:112-113 | the rows to delete are exactly the loaded rows of frequency 1 or less |
| PageData.MergedRow | src/main/java/searchengine/services/indexing/impl/persistence/IndexingCoordinator.java:117 | after the saveAll a lemma row is decremented exactly when its text is named at frequency above 1 |
| PageData.DeletedRow | src/main/java/searchengine/services/indexing/impl/persistence/IndexingCoordinator.java:118 | the deleteAll takes a lemma's id exactly when its text is named at frequency 1 or less |
| PageData.CleanupRow | src/main/java/searchengine/services/indexing/impl/persistence/IndexingCoordinator.java:106-118 | a lemma row after the saveAll is gone after the deleteAll exactly when the decrement leaves it at no page, and otherwise equals the decremented-by-name row |
| PageData.AsWrittenDeletePageData | src/main/java/searchengine/services/indexing/impl/persistence/IndexingCoordinator.java:89-97 | deletePageData as written fails exactly when the lookup by path alone throws; with no page at the path it changes nothing; otherwise it deletes a page with that path, of any site, and leaves the lemmas and index rows of the as-written cleanup; it keeps the tables valid |
| PageData.ExamplePath | src/main/java/searchengine/services/indexing/impl/persistence/utils/UrlUtils.java:8-10 | the url http://a.ru/a of the site http://a.ru gives the path /a |
| PageData.ExampleIsConsistent | src/main/java/searchengine/services/indexing/impl/persistence/IndexingCoordinator.java:89-119 | the example tables are valid and consistent |
| PageData.ExampleCleanup | src/main/java/searchengine/services/indexing/impl/persistence/IndexingCoordinator.java:99-119 | on the example and the text "кот", the as-written cleanup leaves no index row and the lemma at frequency 1 |
| PageData.AsWrittenLosesOtherPagesPostings | src/main/java/searchengine/services/indexing/impl/persistence/IndexingCoordinator.java:99-119 | re-indexing /a as written also drops /b's index row, so the tables are no longer consistent |
| PageData.CorrectedKeepsOtherPagesPostings | src/main/java/searchengine/services/indexing/impl/persistence/IndexingCoordinator.java:89-97 | the corrected removal on the same input keeps /b's row, leaves "кот" at frequency 1, and keeps the tables consistent |
| PageData.ExampleRemovesPageA | src/main/java/searchengine/services/indexing/impl/persistence/IndexingCoordinator.java:99-119 | removing page /a of the example leaves /b's row and "кот" at frequency 1 |
| PageData.ExampleDeletesPageA | src/main/java/searchengine/services/indexing/impl/persistence/IndexingCoordinator.java:89-94 | the corrected lookup of /a on the example finds page 1 of the site |
| PageData.AsWrittenDeletesPageOfAnotherSite | src/main/java/searchengine/services/indexing/impl/persistence/IndexingCoordinator.java:90-95 | when only another site has a page at the extracted path, deletePageData as written deletes that page, and the corrected removal keeps it |
| PageData.AddPostingPosts | src/main/java/searchengine/services/indexing/impl/parser/SinglePageIndexing.java:48-49 | saveLemma then saveIndex for a text the page does not hold yet: the page has no row for the upserted lemma, and appending one keeps the tables consistent, extends the page's postings by the text and is one posting (one more frequent lemma, the given rank, nothing else changed) |
| PageData.PostedExtends | src/main/java/searchengine/services/indexing/impl/parser/SinglePageIndexing.java:47-50 | one more posting for a new text extends what the postings leave by that text, other pages' index rows included |
| Coordinator.IndexingCoordinator.constructor | src/main/java/searchengine/services/indexing/impl/persistence/IndexingCoordinator.java:26-31 | the site, lemma and index services and the page batch inserter are new, all work on the one database, and every buffer starts empty |
| Coordinator.IndexingCoordinator.ClearAllBuffers | src/main/java/searchengine/services/indexing/impl/persistence/IndexingCoordinator.java:33-37 | the index, lemma and page buffers are emptied and the tables stay |
| Coordinator.IndexingCoordinator.DeleteDataAboutSites | src/main/java/searchengine/services/indexing/impl/persistence/IndexingCoordinator.java:39-44 | the index, lemma, page and site tables are emptied, the id counters keep their values, and the empty tables are consistent |
| Coordinator.IndexingCoordinator.GetSiteFromListAndSave | src/main/java/searchengine/services/indexing/impl/persistence/IndexingCoordinator.java:46-48 | one site row with the next id, the normalised url, the name, status INDEXING and no error is appended; no other table changes |
| Coordinator.IndexingCoordinator.SaveFinalSiteData | src/main/java/searchengine/services/indexing/impl/persistence/IndexingCoordinator.java:50-52 | the site with that id takes the status and error; every other site row and every other table stays |
| Coordinator.IndexingCoordinator.SavePage | src/main/java/searchengine/services/indexing/impl/persistence/IndexingCoordinator.java:54-56 | the insert fails, leaving the tables, exactly when the site already has a page at the extracted path; otherwise the page row with the next id, the site, the path, the code and the html is appended |
| Coordinator.IndexingCoordinator.SaveLemma | src/main/java/searchengine/services/indexing/impl/persistence/IndexingCoordinator.java:58-60 | the (text, site) lemma is inserted with frequency 1 or gains one, and that row is returned |
| Coordinator.IndexingCoordinator.SaveIndex | src/main/java/searchengine/services/indexing/impl/persistence/IndexingCoordinator.java:62-64 | the insert fails, leaving the tables, exactly when (page, lemma) is taken; otherwise the row with the next id and the count as rank is appended |
| Coordinator.IndexingCoordinator.GetSite | src/main/java/searchengine/services/indexing/impl/persistence/IndexingCoordinator.java:66-68 | getSiteForOnePage's three cases: a stored site whose url prefixes the path is returned and nothing is written; otherwise a configuration that does not validate gives its error and nothing is written; otherwise the first configured site for the path is stored as a new INDEXING row with the normalised url and returned, or the result is null and nothing is written; a returned site is stored and its url prefixes the path |
| Coordinator.IndexingCoordinator.GetSiteById | src/main/java/searchengine/services/indexing/impl/persistence/IndexingCoordinator.java:70-72 | a stored site with the id, or null exactly when no site has it |
| Coordinator.IndexingCoordinator.GetLemma | src/main/java/searchengine/services/indexing/impl/persistence/IndexingCoordinator.java:74-76 | a fresh lemma of the site, text and frequency, with an unset id, is appended to the lemma buffer |
| Coordinator.IndexingCoordinator.CreatePageBatchInsert | src/main/java/searchengine/services/indexing/impl/persistence/IndexingCoordinator.java:78-83 | the page is built and buffered; when the buffer reaches 100 pages the whole buffer goes to one batch and the buffer empties, otherwise the tables stay |
| Coordinator.IndexingCoordinator.CreateIndex | src/main/java/searchengine/services/indexing/impl/persistence/IndexingCoordinator.java:85-87 | a fresh index entry of the page, lemma and rank is appended to the index buffer |
| Coordinator.IndexingCoordinator.DeletePageDataAsWritten | src/main/java/searchengine/services/indexing/impl/persistence/IndexingCoordinator.java:89-97 | the tables become those of deletePageData as written, and a throwing lookup changes nothing |
| Coordinator.IndexingCoordinator.DeleteLemmaAndIndexForOnePage | src/main/java/searchengine/services/indexing/impl/persistence/IndexingCoordinator.java:99-119 | the tables become those of the as-written cleanup for the texts |
| Coordinator.IndexingCoordinator.DeletePageData | src/main/java/searchengine/services/indexing/impl/persistence/IndexingCoordinator.java:89-97 | the tables become those of the corrected removal, and consistent tables stay consistent |
| Coordinator.IndexingCoordinator.AddLemmaAndIndexToTheDatabase | src/main/java/searchengine/services/indexing/impl/persistence/IndexingCoordinator.java:121-127 | the last pages go first; then one lemma row per key, in order of first occurrence, with the key's count as frequency; then one index row per entry, repointed to its key's new lemma and with its rank; the lemma and index batches read the one stop flag in turn, the index batch from the read after the lemma batch's last one, which comes early when an execution inside the lemma loop threw; no entry changes key; an entry's row binds the id its page had, or, when the page batch commits whole, the key of its page's row; when the lemma batch commits whole, an entry whose key is the j-th distinct key binds the key of the j-th lemma row |
| Coordinator.IndexingCoordinator.FlushPages | src/main/java/searchengine/services/indexing/impl/persistence/IndexingCoordinator.java:122 | the page buffer is empty, and the tables are those after one batch of the buffered pages when there were any |
| Coordinator.IndexingCoordinator.ReconcileLemmas | src/main/java/searchengine/services/indexing/impl/persistence/IndexingCoordinator.java:123-124 | the lemma buffer becomes one fresh lemma per key with the site of the key's last lemma and the key's count; each index entry points to the new lemma of its key, so keeps its key |
| Coordinator.IndexingCoordinator.SendLemmaBatch | src/main/java/searchengine/services/indexing/impl/persistence/IndexingCoordinator.java:125 | the tables are those after the batch of the buffer's lemma rows and its flag reads are Store.LemmaBatchReads; the entries keep their keys; when the whole batch commits, an entry whose key is the j-th key binds the key of the j-th lemma row |
| Coordinator.IndexingCoordinator.SendBatches | src/main/java/searchengine/services/indexing/impl/persistence/IndexingCoordinator.java:125-126 | the lemma batch of the buffer's rows, then the index batch of the entries reading the stop flag on from the lemma batch's last read (Store.LemmaBatchReads); one index row per entry with its rank and page id; the entries keep their lemmas and keys; when the whole lemma batch commits, an entry whose key is the j-th key binds the key of the j-th lemma row |
| Coordinator.IndexingCoordinator.SendIndexBatch | src/main/java/searchengine/services/indexing/impl/persistence/IndexingCoordinator.java:126 | the tables are those after the batch of the entries' rows, one per entry with its rank and the ids its page and lemma hold; the entries keep their keys |
| Coordinator.BindsByEntryKey | src/main/java/searchengine/services/indexing/impl/persistence/IndexingCoordinator.java:125-126 | the lemma ids the index rows bind, read through each entry's lemma: an entry whose key is the j-th key binds the j-th new id |
| Coordinator.BoundAfterLemmaBatch | src/main/java/searchengine/services/indexing/impl/persistence/IndexingCoordinator.java:125-126 | index rows built after the lemma batch bind, for each entry, the id of the lemma its key names |
| Coordinator.StopSeenByLemmasStopsIndices | src/main/java/searchengine/services/indexing/impl/persistence/IndexingCoordinator.java:125-126 | when the lemma batch saw the stop on the shared flag and none of its executions threw, the index batch adds no index row |
| SinglePage.OrderCoversMap | src/main/java/searchengine/services/indexing/impl/parser/SinglePageIndexing.java:47 | walking the map's keys in the model's order visits exactly the keys of the lemma map |
| SinglePage.SinglePageIndexing.constructor | src/main/java/searchengine/services/indexing/impl/parser/SinglePageIndexing.java:18-21 | the object keeps its coordinator and site |
| SinglePage.SinglePageIndexing.GetIndexPageResult | src/main/java/searchengine/services/indexing/impl/parser/SinglePageIndexing.java:23-38 | without a document the answer is false, the site is FAILED with the connection error and no page, lemma or index row changes; with one, from consistent tables, the answer is true and the page is re-indexed as SinglePage.Reindexed states |
| SinglePage.SinglePageIndexing.UpdateDataInDb | src/main/java/searchengine/services/indexing/impl/parser/SinglePageIndexing.java:40-53 | from consistent tables the page is re-indexed as SinglePage.Reindexed states: consistent tables, the site INDEXED with an empty error, the page rows those the old page's removal left plus the new page of this site at the path with the response's code and html, one row per lemma of the body text with the lemma's count as rank, each such lemma one more frequent than after the removal, every other lemma as the removal left it, every other page's index rows and ranks as the removal left them |
| SinglePage.SinglePageIndexing.ReplacePage | src/main/java/searchengine/services/indexing/impl/parser/SinglePageIndexing.java:44-45 | the old page data goes and the page is stored anew with the response's code and html: the page rows are those the removal left plus the new one, the lemma and index rows those the removal left; from consistent tables it has no index row yet |
| SinglePage.SinglePageIndexing.SaveLemmasAndIndices | src/main/java/searchengine/services/indexing/impl/parser/SinglePageIndexing.java:47-50 | from consistent tables where the page has no rows, every insert succeeds, the tables stay consistent, the page's rows point to lemmas of this site with the map's texts, each text's lemma is one more frequent than before (new ones have 1) and the page's row for it has the text's count as rank; no other lemma's frequency and no other page's index row or rank changes |
| SinglePage.SinglePageIndexing.SaveLemmaAndIndex | src/main/java/searchengine/services/indexing/impl/parser/SinglePageIndexing.java:48-49 | for a text the page does not hold yet, the insert succeeds and the tables stay consistent; the text's lemma on the site is one more frequent (or new with 1), the page's row for it has the given rank, and no other lemma or row changes |
| Nodes.Node.constructor | src/main/java/searchengine/services/indexing/impl/parser/node/Node.java:17-23 | the node keeps its config, site and parent url and has no children |
| Nodes.Node.AddChildren | src/main/java/searchengine/services/indexing/impl/parser/node/Node.java:25-27 | the child is appended after the existing children |
| Crawler.UnseenShrinks | src/main/java/searchengine/services/indexing/impl/parser/PageCrawlerTask.java:29 | recording a new URL of the finite universe leaves fewer unseen URLs, which bounds the recursion of the crawl |
| Crawler.ForbiddenImage | src/main/java/searchengine/services/indexing/impl/parser/PageCrawlerTask.java:26-27 | the pattern matches an upper-case image extension followed by a query |
| Crawler.ExtensionAloneAllowed | src/main/java/searchengine/services/indexing/impl/parser/PageCrawlerTask.java:26-27 | a bare extension with no character before the dot does not match |
| Crawler.LongerExtensionAllowed | src/main/java/searchengine/services/indexing/impl/parser/PageCrawlerTask.java:26-27 | an extension followed by more letters does not match |
| Crawler.Counter.constructor | src/main/java/searchengine/services/indexing/impl/parser/PageCrawlerTask.java:28 | the page counter starts at 0 |
| Crawler.Counter.IncrementAndGet | src/main/java/searchengine/services/indexing/impl/parser/PageCrawlerTask.java:85 | the counter goes up by one and the new value is returned |
| Crawler.PageCrawler.constructor | src/main/java/searchengine/services/indexing/impl/parser/PageCrawlerTask.java:28-36 | a crawl starts with no link seen, no task run, the counter at 0 and a well-formed coordinator |
| Crawler.PageCrawler.Fetch | src/main/java/searchengine/services/indexing/impl/parser/PageCrawlerTask.java:101-108 | a document comes only from a URL of the web, and every link it holds is in the crawl's universe |
| Crawler.PageCrawler.ReadStop | src/main/java/searchengine/services/indexing/impl/parser/PageCrawlerTask.java:44 | the flag read is the oracle's next answer; the seen set and the task log stay |
| Crawler.PageCrawler.ClearAllLinks | src/main/java/searchengine/services/indexing/impl/parser/PageCrawlerTask.java:118-121 | the counter goes to 0 and the seen set and task log are emptied |
| Crawler.PageCrawler.ShouldSkipUrl | src/main/java/searchengine/services/indexing/impl/parser/PageCrawlerTask.java:110-116 | a link off the site, with '#' or matching the image pattern is skipped unrecorded and without reading the flag; otherwise it is recorded, and it is skipped when it was seen before or, reading the flag, when stop is requested |
| Crawler.PageCrawler.CreateTask | src/main/java/searchengine/services/indexing/impl/parser/PageCrawlerTask.java:68-76 | a task exists exactly when the link is not skipped; its node has the parent's config and site, the link as url, and is appended to the parent's children |
| Crawler.PageCrawler.CreateTasks | src/main/java/searchengine/services/indexing/impl/parser/PageCrawlerTask.java:49-50 | the tasks are the new children in link order; each has a link as url that was unseen and is now seen, every admissible link is seen afterwards, and no two tasks share a url |
| Crawler.PageCrawler.Compute | src/main/java/searchengine/services/indexing/impl/parser/PageCrawlerTask.java:38-57 | the node's url is recorded; with stop requested nothing else changes; a fetch failure marks the site FAILED with the exception text and changes nothing else; every task started afterwards has a url that was not seen before, so no url is crawled twice |
| Crawler.PageCrawler.StartTask | src/main/java/searchengine/services/indexing/impl/parser/PageCrawlerTask.java:40-44 | the url joins the seen set and the task log, and the stop flag read is the next one in the sequence |
| Crawler.PageCrawler.CrawlDocument | src/main/java/searchengine/services/indexing/impl/parser/PageCrawlerTask.java:46-52 | the page is saved and every task this run starts has a url outside the seen set it began with |
| Crawler.PageCrawler.SpawnTasks | src/main/java/searchengine/services/indexing/impl/parser/PageCrawlerTask.java:49-52 | the child tasks are created and run, and every task they start has a url outside the seen set from before |
| Crawler.PageCrawler.RunTasks | src/main/java/searchengine/services/indexing/impl/parser/PageCrawlerTask.java:52 | tasks with distinct, new urls run one after the other; no url already seen but not yet run at the start is run by another task |
| Crawler.PageCrawler.RunTask | src/main/java/searchengine/services/indexing/impl/parser/PageCrawlerTask.java:52 | one child task runs; a url seen but not yet run when it started, other than its own, is still not run after it |
| Crawler.PageCrawler.SavePageInDb | src/main/java/searchengine/services/indexing/impl/parser/PageCrawlerTask.java:78-89 | nothing is stored exactly when the url is the site's own or the status is 400 or more; otherwise the counter goes up by one, the page with the extracted path, code and html joins the page buffer (or a full batch empties it), and one lemma and one index entry per lemma of the text are buffered |
| Crawler.PageCrawler.StorePage | src/main/java/searchengine/services/indexing/impl/parser/PageCrawlerTask.java:86-88 | the page is built and buffered, and its lemmas and index entries are buffered for the text's lemma map |
| Crawler.PageCrawler.BufferPage | src/main/java/searchengine/services/indexing/impl/parser/PageCrawlerTask.java:86 | the page joins the page buffer, which a full batch empties |
| Crawler.PageCrawler.CreateLemmaAndIndex | src/main/java/searchengine/services/indexing/impl/parser/PageCrawlerTask.java:91-99 | for each lemma text in turn, a lemma of the site with frequency 1 and an index entry of the page pointing to it, with the text's count as rank, are appended; what was buffered before stays |
| IndexingServices.FinalisesOnceAfterLastSite | src/main/java/searchengine/services/indexing/impl/IndexingServiceImpl.java:56-94 | a run of n sites starts the counter at n + 1; without a stop the first n - 1 completions only count down, the n-th runs the finalisation and leaves 0, and no later completion finalises again |
| IndexingServices.FinalisationSettlesRegisteredSites | src/main/java/searchengine/services/indexing/impl/IndexingServiceImpl.java:86-91 | after completeSiteIndexing no registered site is INDEXING: each is INDEXED with an empty error or was FAILED and kept its state; unregistered sites are untouched and no site changes id, url or name |
| IndexingServices.StopFailsRegisteredSites | src/main/java/searchengine/services/indexing/impl/IndexingServiceImpl.java:105-107 | after a stop every registered site is FAILED with the stop message and the others are untouched |
| IndexingServices.MarkOneMore | src/main/java/searchengine/services/indexing/impl/IndexingServiceImpl.java:87-91 | with unique ids, one more status update of an id is the marking extended by that id |
| IndexingServices.UniqueRowOfId | src/main/java/searchengine/services/indexing/impl/IndexingServiceImpl.java:88 | marking keeps the ids, so the row found for an id is the only row with it |
| IndexingServices.SparedWhenFailed | src/main/java/searchengine/services/indexing/impl/IndexingServiceImpl.java:88 | a FAILED row is spared, so skipping it is the marking extended by its id |
| IndexingServices.MissingStaysMissing | src/main/java/searchengine/services/indexing/impl/IndexingServiceImpl.java:88 | an id with no row after the marking had none before |
| IndexingServices.IndexingService.constructor | src/main/java/searchengine/services/indexing/impl/IndexingServiceImpl.java:29-37 | a new service has no outstanding task, no stop, no registered site and no pending shutdown |
| IndexingServices.IndexingService.StartIndexing | src/main/java/searchengine/services/indexing/impl/IndexingServiceImpl.java:42-63 | refused exactly while tasks are outstanding or a shutdown is pending; an invalid configuration fails before anything changes; otherwise the counter is the number of sites plus one, the stop flag is clear, the seen links, the counter and all buffers are reset and every table is emptied |
| IndexingServices.IndexingService.RegisterSite | src/main/java/searchengine/services/indexing/impl/IndexingServiceImpl.java:65-70 | the configured site is appended as a new INDEXING row with the normalised url and its id joins the registered ids (once) |
| IndexingServices.IndexingService.CountingCompletedThreadPools | src/main/java/searchengine/services/indexing/impl/IndexingServiceImpl.java:76-84 | after a stop nothing happens; otherwise the counter goes down, and reaching the final task flushes the pages, the reconciled lemmas and the index entries as three batches (one row per entry, the last two reading the one stop flag in turn) and finalises the registered sites, or fails with the null-pointer error when a registered site has no row |
| IndexingServices.IndexingService.AddLemmaAndIndexToTheDatabase | src/main/java/searchengine/services/indexing/impl/IndexingServiceImpl.java:81 | the tables are those after the page batch, the reconciled lemma batch and the index batch in turn, the index batch reading the stop flag on from where the lemma batch stopped; one index row per entry with its rank and each entry repointed to its key's new lemma; the site rows and the service's own state are as they were |
| IndexingServices.IndexingService.CompleteSiteIndexing | src/main/java/searchengine/services/indexing/impl/IndexingServiceImpl.java:86-96 | every registered site not FAILED becomes INDEXED with an empty error, the registered ids are cleared and the counter is 0; a registered id with no row makes it fail with the null-pointer error |
| IndexingServices.IndexingService.FinaliseSite | src/main/java/searchengine/services/indexing/impl/IndexingServiceImpl.java:87-91 | one step of that walk: the marking is extended by the id, or the id has no row and the step fails |
| IndexingServices.IndexingService.StopIndexing | src/main/java/searchengine/services/indexing/impl/IndexingServiceImpl.java:98-116 | true exactly when sites are registered; then the stop flag is set, every registered site is FAILED with the stop message, a shutdown is pending, and the registered ids and counter are cleared; false changes nothing |
| IndexingServices.IndexingService.ShutdownSiteExecutorAsync | src/main/java/searchengine/services/indexing/impl/IndexingServiceImpl.java:129-130 | a shutdown is pending afterwards, and a second call while one is pending changes nothing else |
| IndexingServices.IndexingService.ShutdownFinished | src/main/java/searchengine/services/indexing/impl/IndexingServiceImpl.java:147 | once the shutdown ends, a start is possible again |
| IndexingServices.IndexingService.IndexPage | src/main/java/searchengine/services/indexing/impl/IndexingServiceImpl.java:118-127 | false, changing nothing, while sites are registered or for a missing or blank path; otherwise the site lookup's failure is returned, no site for the path gives false, an unloadable page gives false with the site FAILED and no page, lemma or index row changed, and a loaded page on consistent tables gives true and is re-indexed as SinglePage.Reindexed states |
| Snippets.UnboldReplaceFrom | src/main/java/searchengine/services/search/impl/utils/SnippetService.java:66-69 | from any position, in a text without '<', taking the markup of the word off the replaceAll result gives back the rest of the text |
| Snippets.ReplaceWord | src/main/java/searchengine/services/search/impl/utils/SnippetService.java:66-69 | replaceAll of one word over the whole text: never shorter, unchanged without a whole-word match, and in a text without '<', taking the markup off again gives the text back |
| Snippets.GetCorrectedContent | src/main/java/searchengine/services/search/impl/utils/SnippetService.java:63-72 | the result is one whole-word replaceAll per query word, each applied to the result of the one before |
| Snippets.CloseFrom | src/main/java/searchengine/services/search/impl/utils/SnippetService.java:21 | the lazy match ends at a closing tag at or after the position |
| Snippets.MatchAt | src/main/java/searchengine/services/search/impl/utils/SnippetService.java:21 | a match of the bold pattern is at least seven characters and inside the text |
| Snippets.Spans | src/main/java/searchengine/services/search/impl/utils/SnippetService.java:27-30 | as many start indices as end indices |
| Snippets.SpansAreMatches | src/main/java/searchengine/services/search/impl/utils/SnippetService.java:27-30 | each recorded span is a match of the pattern at its start, inside the text, and each ends before the next starts |
| Snippets.SpansIncrease | src/main/java/searchengine/services/search/impl/utils/SnippetService.java:27-30 | the spans come in order and do not overlap |
| Snippets.SpansChain | src/main/java/searchengine/services/search/impl/utils/SnippetService.java:27-30 | spans that follow each other end to start are ordered across any distance |
| Snippets.SpansStep | src/main/java/searchengine/services/search/impl/utils/SnippetService.java:27-30 | one turn of the find loop: no match moves on by one, a match is recorded and the search resumes at its end |
| Snippets.FindSpans | src/main/java/searchengine/services/search/impl/utils/SnippetService.java:24-30 | the loop collects exactly the successive matches, each a match of the pattern in order |
| Snippets.GroupStart | src/main/java/searchengine/services/search/impl/utils/SnippetService.java:41-46 | the first pair of neighbouring spans at most 30 characters apart, and none before it; none when no pair is |
| Snippets.WindowStart | src/main/java/searchengine/services/search/impl/utils/SnippetService.java:48-52 | the window starts at the first span of the first close pair, or at the first span when no pair is close |
| Snippets.GetSnippet | src/main/java/searchengine/services/search/impl/utils/SnippetService.java:36-61 | without spans, the first 200 characters of the unmarked text; otherwise at most 200 characters of the marked text from the window start; "..." is appended in both cases |
| Snippets.SnippetBounded | src/main/java/searchengine/services/search/impl/utils/SnippetService.java:53-60 | every snippet ends with "..." and has at most 203 characters |
| Snippets.WordsNonEmpty | src/main/java/searchengine/services/indexing/impl/morphology/Lemmatizer.java:43-62 | no word to mark is empty |
| Snippets.Snippet | src/main/java/searchengine/services/search/impl/utils/SnippetService.java:17-34 | the snippet of a text ends with "..." and has at most 203 characters |
| Snippets.GenerateSnippet | src/main/java/searchengine/services/search/impl/utils/SnippetService.java:17-34 | the result is the snippet of the marked text's spans, and without a span it is the start of the unmarked text |
| Snippets.NoMatchKeepsPlainStart | src/main/java/searchengine/services/search/impl/utils/SnippetService.java:53 | a text where no query word occurs and no bold tag stands gets its own first 200 characters plus "..." |
| Snippets.NoOpenNoSpans | src/main/java/searchengine/services/search/impl/utils/SnippetService.java:27-30 | a text without an opening tag has no span |
| Snippets.ReplaceFrom | src/main/java/searchengine/services/search/impl/utils/SnippetService.java:66-69 | replaceAll from a position never shortens the rest of the text |
| Snippets.NoMatchKeepsText | src/main/java/searchengine/services/search/impl/utils/SnippetService.java:66-69 | with no whole-word match from a position on, replaceAll leaves the rest of the text unchanged |
| Sorting.Insert | src/main/java/searchengine/services/search/impl/SearchServiceImpl.java:65 | inserting adds exactly the element: the result is a permutation of the input plus it, one longer |
| Sorting.SortedTail | src/main/java/searchengine/services/search/impl/SearchServiceImpl.java:65 | the tail of a sorted sequence is sorted |
| Sorting.SortedHeadIsLeast | src/main/java/searchengine/services/search/impl/SearchServiceImpl.java:65 | no element of a sorted sequence has a key below its head's |
| Sorting.ConsSorted | src/main/java/searchengine/services/search/impl/SearchServiceImpl.java:65 | a head whose key is at most every key of a sorted tail keeps the sequence sorted |
| Sorting.InsertSorted | src/main/java/searchengine/services/search/impl/SearchServiceImpl.java:65 | inserting into a sorted sequence keeps it sorted |
| Sorting.SortBy | src/main/java/searchengine/services/search/impl/SearchServiceImpl.java:65-76 | the result is a permutation of the input |
| Sorting.SortBySorted | src/main/java/searchengine/services/search/impl/SearchServiceImpl.java:65-76 | the result is sorted by the key |
| Statistics.CountOfSite | src/main/java/searchengine/repository/PageRepository.java:22-26 | a count of a site's rows is at most the size of the table |
| Statistics.ErrorText | src/main/java/searchengine/services/statistics/impl/StatisticsServiceImpl.java:53 | a missing last error gives the empty string and a present one is returned as it is |
| Statistics.GetStatistics | src/main/java/searchengine/services/statistics/impl/StatisticsServiceImpl.java:28-77 | result is true; total.sites is the number of sites; total.pages and total.lemmas add the per-site counts; isIndexing holds exactly when some site is INDEXING; one detailed item per site, in order, with its name, url, status, error text and its page and lemma counts |
| Statistics.OneSiteWithId | src/main/java/searchengine/services/statistics/impl/StatisticsServiceImpl.java:37-42 | with unique site ids, an id that occurs belongs to exactly one site |
| Statistics.NoSiteWithId | src/main/java/searchengine/services/statistics/impl/StatisticsServiceImpl.java:37-42 | with unique site ids, the sites before the one with id x have none with x |
| Statistics.TotalOfSitesFirstRow | src/main/java/searchengine/services/statistics/impl/StatisticsServiceImpl.java:37-42 | the first row of a table adds one to the total for each site with its site id |
| Statistics.TotalsCountEveryRow | src/main/java/searchengine/services/statistics/impl/StatisticsServiceImpl.java:37-42 | with unique site ids and every row belonging to a stored site, the per-site counts add up to the size of the table |
| Statistics.ZeroRowsZeroTotal | src/main/java/searchengine/services/statistics/impl/StatisticsServiceImpl.java:37-42 | an empty table adds up to zero |
| Statistics.StatisticsTotalsAreTableSizes | src/main/java/searchengine/services/statistics/impl/StatisticsServiceImpl.java:37-42 | in a store whose pages and lemmas all belong to stored sites, total.pages is the number of pages and total.lemmas the number of lemmas |
| Search.OffsetOrDefault | src/main/java/searchengine/services/search/impl/SearchServiceImpl.java:45 | a missing or negative offset becomes 0 and any other is kept |
| Search.LimitOrDefault | src/main/java/searchengine/services/search/impl/SearchServiceImpl.java:46 | a missing limit or one below 1 becomes 20 and any other is kept |
| Search.GetSite | src/main/java/searchengine/services/search/impl/SearchServiceImpl.java:216-222 | no site for a missing or blank url; a found site is stored under the normalised url and INDEXED; the lookup fails only with the non-unique-result error |
| Search.GetSiteCases | src/main/java/searchengine/services/search/impl/SearchServiceImpl.java:216-222 | for a non-blank url, the lookup throws exactly when two sites are stored under the normalised url, and finds a site exactly when the one site stored there is INDEXED |
| Search.KeptLemmasMeaning | src/main/java/searchengine/services/search/impl/SearchServiceImpl.java:119-137 | a lemma frequency is kept exactly when its lemma is in the query, its frequency is the stored one, it is not 0, and it is on at most 80% of the pages; no more entries than query lemmas |
| Search.GetLemmaFrequencyListAsWritten | src/main/java/searchengine/services/search/impl/SearchServiceImpl.java:119-137 | as written: fails with the null-pointer error exactly when some query lemma has no row; otherwise gives the kept lemmas in query order |
| Search.GetLemmaFrequencyList | src/main/java/searchengine/services/search/impl/SearchServiceImpl.java:119-137 | corrected: a missing frequency reads as 0, and the result is the kept lemmas in query order |
| Search.CandidatesMeaning | src/main/java/searchengine/services/search/impl/SearchServiceImpl.java:179-203 | a page is a candidate exactly when every kept lemma occurs on it |
| Search.CandidatesOfPrefix | src/main/java/searchengine/services/search/impl/SearchServiceImpl.java:193-198 | the candidates of the whole list are among those of any non-empty prefix, so an empty intermediate set means no candidate |
| Search.CandidatesStep | src/main/java/searchengine/services/search/impl/SearchServiceImpl.java:194-198 | each further lemma narrows the candidates to its own pages |
| Search.GetPageIds | src/main/java/searchengine/services/search/impl/SearchServiceImpl.java:179-203 | the result is the set of pages holding every kept lemma; it fails with the null-pointer error only when a lemma's id lookup finds none, and never when all lookups succeed |
| Search.KeptLemmasHavePostings | src/main/java/searchengine/services/search/impl/SearchServiceImpl.java:185-190 | every kept lemma, after the sort, has a row, so the id lookups of getPageIds never meet a null |
| Search.RanksOf | src/main/java/searchengine/services/search/impl/SearchServiceImpl.java:155-177 | at most one rank per query lemma |
| Search.RanksSumToScore | src/main/java/searchengine/services/search/impl/SearchServiceImpl.java:144-148 | the ranks collected for a page add up to its score: each query lemma's rank on the page, or nothing |
| Search.GetRanksList | src/main/java/searchengine/services/search/impl/SearchServiceImpl.java:155-177 | the ranks of the query lemmas present on the page, in query order |
| Search.GetPageAbsRelevanceMap | src/main/java/searchengine/services/search/impl/SearchServiceImpl.java:139-153 | every candidate page, and only those, maps to its score |
| Search.MaxRelevance | src/main/java/searchengine/services/search/impl/SearchServiceImpl.java:73 | the result is one of the relevances and none is higher |
| Search.ResultForFields | src/main/java/searchengine/services/search/impl/SearchServiceImpl.java:102-117 | a result exists exactly when the page and its site do, failing otherwise with the null-pointer error; it names the page's path and site, keeps the given relevance and carries a snippet of at most 203 characters |
| Search.BuildSearchResult | src/main/java/searchengine/services/search/impl/SearchServiceImpl.java:102-117 | the result is that of the page with the given relevance |
| Search.BuiltForSnoc | src/main/java/searchengine/services/search/impl/SearchServiceImpl.java:90-97 | appending the result of one more page keeps results and pages in step |
| Search.BuiltForAll | src/main/java/searchengine/services/search/impl/SearchServiceImpl.java:87-100 | once every page of the map has a result, no page of the map fails |
| Search.GetSearchResultsList | src/main/java/searchengine/services/search/impl/SearchServiceImpl.java:87-100 | fails exactly when some page of the map has no result; otherwise one result per page of the map, each page once, each with its score divided by the best |
| Search.PageBounds | src/main/java/searchengine/services/search/impl/SearchServiceImpl.java:78-82 | the corrected bounds lie within the results and hold at most limit of them: from offset to offset + limit when offset is below the total, clipped at the end; empty otherwise |
| Search.PageBoundsAsWritten | src/main/java/searchengine/services/search/impl/SearchServiceImpl.java:78-82 | as written, with int arithmetic: fails with IllegalArgumentException exactly when offset + limit passes 2^31 - 1, and otherwise equals the corrected bounds |
| Search.PageBoundsOverflowExample | src/main/java/searchengine/services/search/impl/SearchServiceImpl.java:80 | offset 1 and limit 2147483647 over one result throws as written and gives the empty page when corrected |
| Search.PageOfRankingIsSorted | src/main/java/searchengine/services/search/impl/SearchServiceImpl.java:76-84 | a page of the ranking holds at most limit results and no more than the count, by non-increasing relevance |
| Search.RankPages | src/main/java/searchengine/services/search/impl/SearchServiceImpl.java:58-84 | a success is a found response as Ranked describes: nothing when no lemma is kept or no page holds them all, otherwise the candidates' results by descending relevance, cut to the page; a failure is the null-pointer error |
| Search.Search | src/main/java/searchengine/services/search/impl/SearchServiceImpl.java:40-85 | a missing or blank query, a site not indexed and a query without valid words are refused with their messages; two sites under one url fail; otherwise the response is the ranking of the candidates |
| Search.DistinctCovers | src/main/java/searchengine/services/search/impl/SearchServiceImpl.java:90 | walking a set once has as many steps as the set has members |
| Search.RankedResponseIsSortedPage | src/main/java/searchengine/services/search/impl/SearchServiceImpl.java:76-84 | a found response holds at most limit results, no more than it counts, by non-increasing relevance |
| Search.RankedCountsCandidates | src/main/java/searchengine/services/search/impl/SearchServiceImpl.java:78-84 | the count of a found response is the number of pages that hold every kept lemma |
| Search.RelevanceOfResult | src/main/java/searchengine/services/search/impl/SearchServiceImpl.java:93 | the relevance of each result is its page's score divided by the best score |
| Search.RelativeAtMostOne | src/main/java/searchengine/services/search/impl/SearchServiceImpl.java:93 | a score at most the best gives at most 1, and the best gives 1 |
| Search.HeadOfRanking | src/main/java/searchengine/services/search/impl/SearchServiceImpl.java:76 | the head of the ranking is a result and none is more relevant |
| Search.TopOfRanking | src/main/java/searchengine/services/search/impl/SearchServiceImpl.java:73-84 | the first result of the first page has relevance 1 when the best score is positive |
| Search.TopResultHasFullRelevance | src/main/java/searchengine/services/search/impl/SearchServiceImpl.java:73-84 | on the first page, when the best score is positive, the first result comes from a best page: relevance 1 |
| Search.TotalPages | src/main/java/searchengine/services/search/impl/SearchServiceImpl.java:205-209 | the count lies between 0 and the number of pages; all pages without a site; with one, 0 exactly when no page belongs to the site |
| Search.RankFor | src/main/java/searchengine/services/search/impl/SearchServiceImpl.java:163-172 | with a site, a rank is the rank of the page's row for the site's lemma with that text, and a text not stored on the site has none; without a site, a rank exists exactly when the page has a row for a lemma with that text on some site, and is their total; a text with no lemma row anywhere, hence an empty IN list, has no rank |



## Left out

- Network: Jsoup's fetch is a parameter. For the crawl it is a finite map from URL to an IOException text or a document (status, html, text, links). For single-page indexing it is a `Fetch` value. Connection settings, timeouts and redirects are not modelled.
- HTML: the cleaning of stored HTML and title extraction (`getDocument`, src/main/java/searchengine/services/search/impl/SearchServiceImpl.java:224-233) are the parameter `Html` (title and text of a content string). They are not parsed.
- Morphology: the dictionary behind `getNormalForms` and `getMorphInfo` is the parameter `Morph`, with at least one normal form per word.
- Regular expressions: the word-character class behind Java's `\b` in SnippetService is the parameter `wordChar`. The URL rewrites assume URLs without line terminators, so `$` only matches at the very end.
- Concurrency: the ForkJoin pools, the executor services, `invokeAll`, CompletableFuture and synchronized or concurrent collections are not modelled. The crawl runs depth-first on one thread. A site's completion and the end of the executor shutdown are events the caller triggers. The `commonPool` lifecycle and thread interruption are not modelled.
- Iteration order: the model fixes the order of every HashMap and HashSet the Java code iterates. Lemma maps, reconciled lemmas and page-relevance maps go in first-occurrence or walk order. Java leaves this order unspecified; the properties proved about these collections are stated for the model's order.
- Time: the politeness sleep, `LocalDateTime.now()` and status times, and timing and logging calls are left out. A site's status time is not a field of the model's Site.
- Floating point: ranks are stored as `float` but are whole counts, so the model uses `int`. Relevance is a `double` in Java; the model uses `real`. The 0.8 threshold is the exact real 4/5.
- Search.Relative: when the best score is 0, Java's `0.0 / 0.0` is NaN and the model gives 0. The crawl stores ranks of at least 1, so with such tables a non-empty candidate set has a positive best score and the two agree.
- Sorting.SortBy: it is an insertion sort on reals. NaN or `-0.0` ordering in `Double.compare` is not modelled, and neither is TimSort's algorithm or its stability. Only its result (sorted, a permutation, same length) is.
- Search.RankFor: `getRanksList` with a site unboxes the lemma id into a `long` (src/main/java/searchengine/services/search/impl/SearchServiceImpl.java:164). A query lemma stored on no page of the site therefore throws there. The model gives no rank instead. Under the code as written the call is never reached, because `getLemmaFrequencyList` throws first for the same lemma (see Findings).
- Strings: Dafny's `char` is a Unicode code point, while Java's `String.hashCode`, `length` and `substring` count UTF-16 units. `Model.StringHash` and the snippet's 200- and 203-character limits therefore count code points. The two agree on Cyrillic and Latin text, which has no surrogate pairs.
- Store.AfterPageBatch, Store.AfterLemmaBatch, Store.AfterIndexBatch, Store.InsertPage, Store.InsertIndex, Store.UpsertLemma: the model's auto-increment counters advance only by the rows actually added. InnoDB also uses up ids on a rolled-back batch, on a failed duplicate-key insert and on the update path of `INSERT … ON DUPLICATE KEY UPDATE`, which leaves gaps. The ids the model proves things about are therefore relative to its own counter: they are consecutive from "the next id" and increasing, but after such a failure or upsert they need not equal the database's absolute values.
- Integer widths: generated ids are truncated with `(int)`, as in the statement setters. `offset + limit` is the one overflow modelled in the search. Other counts (frequencies, totals, the task counter) are unbounded integers; they would need more than 2^31 rows to wrap.
- SQL: without a site, the search asks for the rank of every query lemma, kept or not (src/main/java/searchengine/services/search/impl/SearchServiceImpl.java:166-167). A query lemma with no row therefore reaches `getTotalRankByPageIdAndLemmaIds` with an empty IN list. The model takes that SUM over no rows to be null, so the lemma has no rank (`Search.RankFor`). Foreign-key constraints and `ON DELETE` behaviour are not modelled, because the schema is not part of this model. The unique keys the entities declare are modelled.
- HTTP: the controller and the JSON response types are not modelled. The DTOs are datatypes.
- Statistics.GetStatistics: the status time of a detailed item is left out (a clock reading).
- IndexingServices.IndexingService.AddLemmaAndIndexToTheDatabase: does not repeat which page and lemma ids the index rows bind. Those are stated on Coordinator.IndexingCoordinator.AddLemmaAndIndexToTheDatabase, which this method calls.
- PageServices: `save`, `getPage`, `deleteById` and `deleteAll` forward to the repository, which is modelled in `Store`. Only `buildPage` has a member of its own.

## Findings

| source | as written | input that shows it | evidently intended | confidence | as-written member | corrected member |
|---|---|---|---|---|---|---|
| src/main/java/searchengine/services/indexing/impl/persistence/batch/BatchInserter.java:39-43 | the final partial batch writes its keys to the last `remaining` entities of the whole list | five entities, batch size 1000, stop flag set before the third: rows 0 and 1 are inserted, but their keys go to entities 3 and 4 | the keys go to the entities that were sent, `entities[bound - remaining ..]` | not executed | BatchInserter.StoppedTailMisassigned | BatchInserter.PlanAssignsSentRows |
| src/main/java/searchengine/services/indexing/impl/persistence/IndexingCoordinator.java:99-119 | the lemmas are looked up by the texts of the *new* page text, on every site (`findByLemmaIn` has no site condition); every index row of each of them is deleted, whatever page it belongs to, and each is decremented | pages /a and /b of one site both hold "кот"; re-indexing /a also deletes /b's index row, while "кот" keeps frequency 1 | re-indexing removes the old page's postings only: the old page's index rows go, and the lemmas those rows name (the old page's lemmas, all on this site) drop by one or go at zero | not executed | PageData.AsWrittenLosesOtherPagesPostings | PageData.CorrectedKeepsOtherPagesPostings |
| src/main/java/searchengine/services/indexing/impl/persistence/IndexingCoordinator.java:90-95 | the old page is looked up by its path alone, on any site | re-indexing a page of one site when only another site has a page at that path deletes the other site's page | the lookup is by path and site | not executed | PageData.AsWrittenDeletesPageOfAnotherSite | PageData.DeletePageData |
| src/main/java/searchengine/services/search/impl/SearchServiceImpl.java:123-125 | the frequency query's null result (no lemma row, or a SUM over no rows) is unboxed into an `int` | a query whose lemma occurs on no page throws NullPointerException instead of being dropped by the `frequency == 0` test | a missing frequency counts as 0, and the lemma is dropped | not executed | Search.GetLemmaFrequencyListAsWritten | Search.GetLemmaFrequencyList |
| src/main/java/searchengine/services/search/impl/SearchServiceImpl.java:80 | `offset + limit` is an `int` sum, which wraps | offset 1 and limit 2147483647 over one result: the end index wraps below the start and `subList` throws IllegalArgumentException | the end is clamped to the number of results | not executed | Search.PageBoundsOverflowExample | Search.PageBounds |
