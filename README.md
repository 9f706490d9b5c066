# Semantic product search: a verified model

This project models the retrieval and synchronisation core of a Laravel
shop. The shop stores its catalogue locally. It mirrors each product into
a "tiger" PostgreSQL database as text chunks with vector embeddings, and
answers searches from that database.

The model covers:

- **TextChunkingService** (`text_chunking.dfy`).
  - `chunkText` is a sliding byte window with overlap. A window that is not the last one is cut back to its last space, but only when that space lies past 70% of the window. A forced-progress step makes the loop terminate.
  - `chunkProductDescription` keeps a short description as one chunk. A long one is chunked, and every chunk is prefixed with `"<title> - "`.
- **ProductSearch** (`product_search.dfy`). The three SQL queries: filter rows by a strict threshold, group by product, take the minimum score, sort ascending, apply a limit. The chunk table is a sequence of rows. The pgvector distance `<=>` and the BM25 score `<@>` are arbitrary real-valued function parameters.
- **HybridSearchService** (`hybrid_search.dfy`).
  - The two rank maps.
  - Weighted Reciprocal Rank Fusion with k = 60, computed in exact reals.
  - PHP's stable `arsort`.
  - The final `array_slice`.
- **The `products:sync-chunks` command** (`sync_product_chunks.dfy`). An imperative loop over the catalogue against a `ChunkTable` class. Per product it deletes the product's rows, inserts one row per chunk and updates the counters. An embedding failure ends that product's turn and counts as an error.
- **The `SyncProductToTigerData` job and the `ProductObserver`** (`sync_job.dfy`, `product_observer.dfy`).
  - The job either deletes a product's row or upserts it in the legacy keyed `products` table, a `ProductTable` class over a map.
  - The observer decides which job, if any, each model event dispatches.
- **The legacy `products:sync-embeddings` command** (`sync_product_embeddings.dfy`). The same counting loop, upserting one whole-product row per id.
- **The web routes** (`web_routes.dfy`).
  - The home page lists active products newest first. Given a truthy query, it instead shows the semantic search hits re-ordered by rank. Inactive and missing products are dropped, pages hold 24 items, and any failure gives an empty page.
  - The product page answers 404 unless the product is active.

Supporting modules:

- `wrappers.dfy`: Option, Result and a pass/fail outcome.
- `php_text.dfy`: PHP's `trim`, `empty`, `substr` and `strrpos` on byte strings.
- `collections.dfy`: the stable descending sort, the top-k slice and `array_unique`.
- `catalog.dfy`: the local `Product` model, its `active` scope and the command exit codes.
- `tiger.dfy`: the tiger tables.
- `embedding.dfy`: `EmbeddingService`. The OpenAI provider is a parameter of type `(text, model) -> Option<vector>`, and `None` stands for any exception the call raises.

Each imperative operation is a method proved equal to a specification function, for example `Handle` against `Run`. The properties are lemmas about those functions.

Text is a sequence of characters read as bytes, as `strlen` and `substr` count them.

The forced-progress step of `chunkText` moves the next window one byte past the end of a window that is no longer than the overlap. That byte then belongs to no chunk. The model keeps this step as written. It cannot happen before the end of the text when the chunk size is positive and the overlap lies between 0 and 70% of it, which includes the default sizes 500 and 50: a window that stops short of the end is then longer than the overlap (WindowsCover, WindowsReachEnd). Larger overlaps do lose bytes, as SkippedBytesExample shows.

Some quantities the code uses as floats are written in integers or exact reals:

- `$lastSpace > $chunkSize * 0.7` becomes `10 * lastSpace > 7 * chunkSize`.
- RRF scores are exact rationals.

Where the database leaves an order unspecified (ties in `ORDER BY`), the model uses the stable order of the rows.

## Model

| member | source | states |
|---|---|---|
| PhpText.TrimCorrect | app/Services/TextChunkingService.php:17 | trim() leaves the substring between the leading and trailing runs of " \t\n\r\0\x0B"; that substring neither starts nor ends with one of them |
| PhpText.TrimIdempotent | app/Services/TextChunkingService.php:46 | trimming twice is trimming once |
| PhpText.TrimOfTrimmed | app/Services/TextChunkingService.php:17 | a string that neither starts nor ends with a trim byte is its own trim |
| PhpText.TrimStripsOuter | app/Services/TextChunkingService.php:81 | trimming a core that has no trim bytes at its ends, wrapped in trim bytes, gives the core back |
| PhpText.TrimAllBlank | app/Services/TextChunkingService.php:17-19 | a string made only of trim bytes trims to "" |
| PhpText.Substr | app/Services/TextChunkingService.php:34 | substr() is the substring at `start`, of min(length, rest) bytes, or the rest less `-length` bytes for a negative length |
| PhpText.LastIndexOf | app/Services/TextChunkingService.php:39 | strrpos() for a byte: the offset of its last occurrence, or none when it does not occur |
| TextChunking.WindowInText | app/Services/TextChunkingService.php:34-42 | the window read at `start` is a substring of the text at `start`, no longer than chunkSize |
| TextChunking.WindowCutRule | app/Services/TextChunkingService.php:36-44 | the window is the raw substr unless the window is not the last and it is cut at its last space, which lies strictly past 0.7·chunkSize; whenever such a space exists in a non-final window it is cut |
| TextChunking.CutWindow | app/Services/TextChunkingService.php:34-44 | the substr-and-strrpos steps compute exactly the window `Window(text, start, chunkSize)` whose cut rule WindowCutRule states |
| TextChunking.NextStart | app/Services/TextChunkingService.php:49-55 | the next start is start + len − overlap when len > overlap, else start + len + 1: always at least one byte further |
| TextChunking.RawChunksStep | app/Services/TextChunkingService.php:32-55 | one loop turn appends the trimmed window and continues from the next start |
| TextChunking.ChunkText | app/Services/TextChunkingService.php:15-59 | the loop terminates for every chunkSize and overlap and returns exactly the keyed, filtered windows `Chunks(text, chunkSize, overlap)` |
| TextChunking.ChunksOfEmpty | app/Services/TextChunkingService.php:17-21 | a text that is empty after trimming, or "0", gives no chunk, whatever the sizes |
| TextChunking.ChunksOfShort | app/Services/TextChunkingService.php:24-26 | a trimmed text of at most chunkSize bytes is the single chunk under key 0 |
| TextChunking.KeepNonEmptyCorrect | app/Services/TextChunkingService.php:58 | the filter keeps only elements that are non-empty after trimming, each under its original key, keys strictly increasing |
| TextChunking.KeepNonEmptyComplete | app/Services/TextChunkingService.php:58 | every element that is non-empty after trimming is kept under its own key |
| TextChunking.RawChunksShape | app/Services/TextChunkingService.php:32-46 | every window the loop emits is trimmed, a substring of the text and at most chunkSize bytes |
| TextChunking.RawChunksCount | app/Services/TextChunkingService.php:32-55 | the loop emits at most one window per remaining byte |
| TextChunking.ChunksShape | app/Services/TextChunkingService.php:17-58 | chunkText's keys strictly increase and each chunk is non-empty, not "0", trimmed, a substring of the trimmed text and at most chunkSize bytes |
| TextChunking.LastWindow | app/Services/TextChunkingService.php:34-37 | a window that reaches the end of the text is the whole tail |
| TextChunking.TailOverlapChunk | app/Services/TextChunkingService.php:32-55 | when the last window is longer than a positive overlap the loop emits one more chunk: the trimmed last `overlap` bytes |
| TextChunking.WindowStartsChunks | app/Services/TextChunkingService.php:29-56 | the loop's i-th chunk is the trimmed window read at its i-th start; the first start is 0 and every start lies in the text |
| TextChunking.WindowGap | app/Services/TextChunkingService.php:48-55 | the next window starts `overlap` bytes before the end of a window longer than a non-negative overlap, and one byte past the end of a shorter one; the byte after a window is skipped exactly when the window is no longer than the overlap or the overlap is negative |
| TextChunking.WindowsCover | app/Services/TextChunkingService.php:32-55 | with a positive chunk size and an overlap between 0 and 70% of it, every byte of the text is read by some window |
| TextChunking.WindowsReachEnd | app/Services/TextChunkingService.php:32-55 | with those sizes the last window ends exactly at the end of the text |
| TextChunking.SkippedBytesExample | app/Services/TextChunkingService.php:50-55 | with chunk size 2 and overlap 5, "abcdef" gives "ab" and "de": "c" and "f" are read by no window |
| TextChunking.ProductChunksNoDescription | app/Services/TextChunkingService.php:76-82 | an empty description gives the single trimmed title (so "" for an empty title) |
| TextChunking.ProductChunksShort | app/Services/TextChunkingService.php:76-82 | a short or empty description gives the single chunk "<title> <description>" of the trimmed parts, without the space when either part is empty |
| TextChunking.TrimJoined | app/Services/TextChunkingService.php:81 | joining a trimmed title and description with a space and trimming drops only that space when a side is empty |
| TextChunking.ProductChunksLong | app/Services/TextChunkingService.php:84-91 | a description of 100 bytes or more gives one element per chunkText element, same keys and order, each "<title> - <chunk>" ("- <chunk>" for an empty title) |
| TextChunking.TitledChunk | app/Services/TextChunkingService.php:89 | trim(title." - ".chunk) of trimmed parts drops only the space before the dash when the title is empty |
| TextChunking.ProductChunksNonEmpty | app/Services/TextChunkingService.php:76-91 | unless title and description are both empty, no element is empty after trimming |
| Collections.SortDescCorrect | app/Services/HybridSearchService.php:124 | arsort() gives a permutation in non-increasing score order in which equal scores keep their input order |
| Collections.SortDescDistinct | app/Services/HybridSearchService.php:124 | sorting keeps distinct keys distinct |
| Collections.TopKCorrect | app/Models/ProductSearch.php:40-41 | ORDER BY … LIMIT returns min(limit, n) of the entries, in order, and an entry left out has no better score than any kept one |
| Collections.Dedup | app/Services/HybridSearchService.php:101-104 | array_unique keeps each value once and loses none |
| Collections.DedupOfDistinct | app/Services/HybridSearchService.php:101-104 | array_unique of distinct values changes nothing |
| Collections.DedupKeepsPrefix | app/Services/HybridSearchService.php:101-104 | merging distinct semantic ids with BM25 ids keeps the semantic ids first, in their order |
| ProductSearch.Below | app/Models/ProductSearch.php:38 | the WHERE clause keeps exactly the rows whose score is strictly below the threshold, each once |
| ProductSearch.GroupMin | app/Models/ProductSearch.php:36-39 | MIN over a product's qualifying rows: absent iff it has none, otherwise attained by one of them and no larger than any |
| ProductSearch.GroupsCorrect | app/Models/ProductSearch.php:38-39 | GROUP BY product_id lists each product with a qualifying row exactly once |
| ProductSearch.TopGroupsCorrect | app/Models/ProductSearch.php:36-44 | distinct ids, at most `limit`, each with a qualifying row, ascending by minimum score; a qualifying id left out means the limit is full of ids scoring no worse |
| ProductSearch.SearchByEmbeddingCorrect | app/Models/ProductSearch.php:27-45 | every id has a chunk strictly closer than maxDistance, ids are distinct, at most `limit`, ordered by ascending minimum distance (GroupMin of the distance); a product with a qualifying chunk is missing only when `limit` products no farther fill the result |
| ProductSearch.SearchByEmbeddingExcludes | app/Models/ProductSearch.php:38 | a product whose chunks are all at or beyond maxDistance is never returned |
| ProductSearch.SearchByBm25Correct | app/Models/ProductSearch.php:89-109 | every id has a chunk scoring strictly below the threshold, ids are distinct, at most `limit`, ordered by ascending minimum score; a product with a qualifying chunk is missing only when `limit` products scoring no worse fill the result |
| ProductSearch.DetailPositionsCorrect | app/Models/ProductSearch.php:55-73 | chunk rows (not grouped), each once, each closer than maxDistance, ascending by distance, min(limit, qualifying) many, none left out that beats a kept one |
| ProductSearch.SearchChunksWithDetailsCorrect | app/Models/ProductSearch.php:55-73 | each returned match holds the selected columns of the row at a chosen position (product_id, chunk_text, chunk_index, metadata) and that row's own distance, below maxDistance, in ascending distance order |
| HybridSearch.RankOfKeys | app/Services/HybridSearchService.php:51-54 | the rank map's keys are the result ids, once each, in first-appearance order |
| HybridSearch.RankOfRanks | app/Services/HybridSearchService.php:51-54 | every id gets a rank between 1 and n, the 1-based position of its last occurrence |
| HybridSearch.RankOfDistinct | app/Services/HybridSearchService.php:51-54 | for distinct ids the i-th id (0-based) has rank i + 1 |
| HybridSearch.RankResults | app/Services/HybridSearchService.php:51-54 | the foreach loop builds exactly the rank map RankOf(ids) |
| HybridSearch.GetSemanticResults | app/Services/HybridSearchService.php:46-57 | ranks the embedding search run with the caller's limit and maxDistance 0.78 |
| HybridSearch.GetBm25Results | app/Services/HybridSearchService.php:66-77 | ranks the BM25 search run with the caller's limit and the default threshold |
| HybridSearch.FuseResults | app/Services/HybridSearchService.php:91-127 | the scoring loop followed by arsort computes exactly Fused(semantic, bm25, weights) |
| HybridSearch.CombinedKeys | app/Services/HybridSearchService.php:101-121 | one combined entry per candidate id, in candidate order |
| HybridSearch.FusedEntries | app/Services/HybridSearchService.php:101-121 | the fused ids are distinct, are exactly the candidates, and each carries its RRF score |
| HybridSearch.FusedCorrect | app/Services/HybridSearchService.php:97-126 | non-increasing scores, distinct ids, id set = union of both rank maps, each score = w_s/(60+r_s) + w_k/(60+r_k) with absent sides 0, ties in candidate order, semantic ids first among candidates |
| HybridSearch.ContributionDecreasing | app/Services/HybridSearchService.php:111-118 | with a positive weight a better (smaller) rank contributes strictly more |
| HybridSearch.FusedOfEmpty | app/Services/HybridSearchService.php:101-104 | two empty result lists fuse to nothing |
| HybridSearch.Search | app/Services/HybridSearchService.php:21-37 | search() returns exactly HybridIds: the first `limit` keys of the fused ordering |
| HybridSearch.HybridIdsCorrect | app/Services/HybridSearchService.php:21-37 | at most `limit` distinct ids, each found by one of the searches, in non-increasing RRF score |
| HybridSearch.FusedExample | app/Services/HybridSearchService.php:97-124 | semantic [a, b] and BM25 [b, c] with weights 0.6/0.4 fuse to [b, a, c] |
| HybridSearch.FusedTieExample | app/Services/HybridSearchService.php:124 | with equal weights, semantic [a] and BM25 [b] tie and fuse to [a, b] |
| EmbeddingService.Create | app/Services/EmbeddingService.php:18-23 | the provider's answer: the vector when it returns one, a ProviderFailure otherwise |
| EmbeddingService.EmbedCases | app/Services/EmbeddingService.php:12-25 | text that is empty after trimming (or "0") fails with EmptyText whatever the provider does; other text gets the provider's answer |
| Tiger.OfProduct | app/Console/Commands/SyncProductChunks.php:95-98 | the rows with a given product_id, in table order |
| Tiger.WithoutProduct | app/Console/Commands/SyncProductChunks.php:95-98 | the rows left by DELETE … WHERE product_id = id: exactly those of other products |
| Tiger.OfProductAppend | app/Console/Commands/SyncProductChunks.php:125-133 | appending rows appends each product's selection |
| Tiger.OfProductWithout | app/Console/Commands/SyncProductChunks.php:95-98 | deleting a product's rows empties that product and leaves every other product's rows as they were, in order |
| Tiger.OfProductOwned | app/Console/Commands/SyncProductChunks.php:125-126 | rows all of one product are that product's whole selection and no other's |
| Tiger.WithoutAbsent | app/Console/Commands/SyncProductChunks.php:95-98 | deleting a product with no rows changes nothing |
| Tiger.ChunkTable.Truncate | app/Console/Commands/SyncProductChunks.php:58 | the table is emptied |
| Tiger.ChunkTable.DeleteProduct | app/Console/Commands/SyncProductChunks.php:95-98 | the table becomes WithoutProduct of its old rows |
| Tiger.ChunkTable.Insert | app/Console/Commands/SyncProductChunks.php:125-133 | the row is appended |
| Tiger.ProductTable.Delete | app/Jobs/SyncProductToTigerData.php:32-35 | the row under the id is removed |
| Tiger.ProductTable.UpdateOrInsert | app/Jobs/SyncProductToTigerData.php:58-68 | the row under the id is replaced or added |
| SyncProductChunks.InsertFromStep | app/Console/Commands/SyncProductChunks.php:109-135 | one turn of the chunk loop: a failed embedding stops it, a successful one inserts the chunk's row before the rest |
| SyncProductChunks.InsertFromCorrect | app/Console/Commands/SyncProductChunks.php:108-136 | one row per chunk in chunk order, each with the chunk, its key as chunk_index, strlen as chunk_length, count(chunks) as total_chunks and its embedding; completes iff every chunk embedded, else stops right before the first failure |
| SyncProductChunks.InsertFromOwner | app/Console/Commands/SyncProductChunks.php:125-126 | every inserted row carries the product's id |
| SyncProductChunks.InsertChunks | app/Console/Commands/SyncProductChunks.php:109-136 | the inner loop appends exactly the rows InsertFrom describes and reports their number and whether it completed |
| SyncProductChunks.SyncOne | app/Console/Commands/SyncProductChunks.php:83-143 | one product's turn performs exactly SyncProduct on the table and the counters |
| SyncProductChunks.Handle | app/Console/Commands/SyncProductChunks.php:35-161 | the command's exit code, final table and counters are exactly Run of the catalogue and the table before the run |
| SyncProductChunks.ChunksEmbeddable | app/Console/Commands/SyncProductChunks.php:85-111 | every chunk of a product that is not skipped is non-empty, so its embedding is the provider's answer and never EmptyText |
| SyncProductChunks.SyncProductRows | app/Console/Commands/SyncProductChunks.php:85-143 | one turn leaves other products' rows untouched, replaces the product's rows by those just inserted (kept when skipped), and a skipped product's turn does not depend on the provider |
| SyncProductChunks.SyncAllCounts | app/Console/Commands/SyncProductChunks.php:82-146 | every product counts once, as a success or an error; chunk total never decreases |
| SyncProductChunks.SyncAllOthers | app/Console/Commands/SyncProductChunks.php:95-98 | rows of a product not in the catalogue survive the loop unchanged |
| SyncProductChunks.SyncAllProductRows | app/Console/Commands/SyncProductChunks.php:82-146 | after the loop a non-skipped product owns exactly the rows of its own turn (partial on failure); a skipped one keeps its old rows |
| SyncProductChunks.SyncAllSize | app/Console/Commands/SyncProductChunks.php:95-135 | when the products have no earlier rows, the table grows by exactly the reported chunk total |
| SyncProductChunks.RunCorrect | app/Console/Commands/SyncProductChunks.php:43-70 | a missing API key fails with the table untouched; an empty catalogue fails after --fresh has already emptied the table; otherwise SUCCESS with success + errors = products; a fresh run ends with as many rows as chunks reported |
| SyncProductEmbeddings.DirectCallIsEmbed | app/Console/Commands/SyncProductEmbeddings.php:67-84 | for a product that is not skipped the direct provider call equals the embedding service's and can only fail in the provider |
| SyncProductEmbeddings.SyncOne | app/Console/Commands/SyncProductEmbeddings.php:64-110 | one product's turn performs exactly SyncProduct on the table and the counters |
| SyncProductEmbeddings.Handle | app/Console/Commands/SyncProductEmbeddings.php:31-122 | the command's exit code, final table and counters are exactly Run of the catalogue and the table before the run |
| SyncProductEmbeddings.CountStored | app/Console/Commands/SyncProductEmbeddings.php:102 | the number of products stored is at most the number of products |
| SyncProductEmbeddings.SyncAllCounts | app/Console/Commands/SyncProductEmbeddings.php:61-110 | successes are exactly the products with non-empty text that the provider embeds; every other product is an error |
| SyncProductEmbeddings.SyncAllKeys | app/Console/Commands/SyncProductEmbeddings.php:90-100 | the ids with a row afterwards are those before plus the ids of the stored products; no row is removed |
| SyncProductEmbeddings.SyncAllOthers | app/Console/Commands/SyncProductEmbeddings.php:90-100 | the row of an id no product has is left as it was |
| SyncProductEmbeddings.SyncAllProductRow | app/Console/Commands/SyncProductEmbeddings.php:90-100 | with distinct ids a stored product's row holds its title, description, embedding and the run's time twice; an unstored product's row is untouched |
| SyncProductEmbeddings.RunCorrect | app/Console/Commands/SyncProductEmbeddings.php:36-53 | a missing API key or an empty catalogue fails with the table untouched; otherwise SUCCESS with success + errors = products |
| TigerSyncJob.Handle | app/Jobs/SyncProductToTigerData.php:27-79 | the job's result and the table afterwards are exactly JobEffect of the job and the table before |
| TigerSyncJob.JobEffectCorrect | app/Jobs/SyncProductToTigerData.php:27-79 | delete removes just the id's row without the provider; empty text changes nothing without the provider; a provider failure rethrows with the table untouched; success leaves one row under the id with title, description, embedding, created_at ?? now and now; other ids never change |
| ProductObserver.DispatchCorrect | app/Observers/ProductObserver.php:13-37 | create dispatches one upsert job, delete one delete job, and update one upsert job of the saved product iff title or description changed |
| ProductObserver.AfterEventMirrors | app/Observers/ProductObserver.php:13-37 | after a delete the product has no row; after a create or text-changing update whose job succeeds on non-empty text the row mirrors the product; a text-preserving update keeps a mirroring row mirroring; emptied text leaves the old row |
| WebRoutes.ForPage | routes/web.php:36 | forPage() is the consecutive slice of at most perPage items starting at max(0, (page − 1)·perPage) |
| WebRoutes.PagesTile | routes/web.php:34-41 | pages 1..n read in turn are exactly the first n·perPage items: every item is on one page, in order |
| WebRoutes.NewestFirstCorrect | routes/web.php:61-64 | the home listing is a permutation of the active products ordered by created_at descending, undated ones last |
| WebRoutes.Active | app/Models/Product.php:33-36 | the active scope keeps exactly the products whose status is 'active' |
| WebRoutes.FirstActive | routes/web.php:23-30 | firstWhere over the active products: an active product with the id, none iff there is no such product |
| WebRoutes.Hits | routes/web.php:29-31 | the positions of the ids that have an active product, increasing, none missed |
| WebRoutes.OrderedActive | routes/web.php:29-31 | one product per hit, in id order |
| WebRoutes.OrderedActiveCorrect | routes/web.php:23-31 | the re-ordered result holds only active catalogue products with searched ids, in id order, one for every id that has an active product |
| WebRoutes.HomeBrowse | routes/web.php:59-65 | without a query the page is page `page` (24 per page) of the active products listed newest first, total = active count, whatever the search collaborators do |
| WebRoutes.HomeSearchFallback | routes/web.php:12-58 | a failed embedding (a blank query among them), a failed chunk query or a failed query of the local products gives the empty page |
| WebRoutes.SearchPage | routes/web.php:29-41 | a page of the re-ordered result holds only active catalogue products whose ids were found |
| WebRoutes.HomeSearchFound | routes/web.php:15-41 | with a query the page is forPage(page, 24) of the active products among the ids of semantic search with limit 20 and maxDistance 0.8, in search order, total ≤ 20 |
| WebRoutes.ShowProduct | routes/web.php:73-76 | the product page shows the product iff its status is 'active', else 404 |

## Left out

- Blade views and migrations: markup and DDL. Vector contents are not modelled; an embedding is an opaque sequence of reals.
- The OpenAI call and the database operators `<=>` and `<@>` are function parameters. The provider is deterministic per (text, model), so a transient failure that a retry would avoid is not modelled. Any exception the call raises is `None`.
- EmbeddingService.Embed: the empty-text check is modelled as an `EmptyText` error result rather than a precondition, since the source throws and its callers catch.
- Float-to-string formatting of vectors, `addslashes` escaping, IEEE rounding of RRF scores, and the rounded average chunks per product: scores are exact reals and the average is only printed.
- Progress bars, console and log output, and the `(int)` casts of options. Options are already integers.
- `now()`: the time is one integer parameter for a whole run. The legacy command's two `now()` calls per row, and the chunk rows' timestamps, are not distinguished.
- Database write failures. Only embedding failures raise inside the per-product `try` blocks. Inserts, deletes and upserts always succeed.
- A failure of the home page's newest-first listing query, which no `try` catches and which ends the request with a server error. The search path's queries may fail, and that case is modelled.
- Ties in SQL `ORDER BY` and the position of NULL `created_at` are engine-defined. The model keeps ties in table order and puts undated products last, as SQLite and MySQL do for `DESC`.
- SyncProductChunks.SyncAllProductRows: assumes distinct product ids. The catalogue's primary key guarantees this, and the source does not check it.
- A non-numeric `page` parameter: the page is an integer. The paginator's resolution of an invalid page to 1 coincides with `forPage` for pages below 1.
- Queue dispatch, asynchronous execution, model re-fetching when a queued job is deserialised, and races between jobs for the same product: concurrency and framework behaviour. The job runs on the product it was dispatched with.
- A null `product_id`: the writers never produce one.
- TextChunking.Window: the 70% rule is compared in exact integers, while PHP compares against the double `$chunkSize * 0.7`. For chunk sizes whose product rounds below the exact value, such as 90 (62.99999999999999) or 170, PHP also cuts at a space exactly at 70% (offset 63 for 90), and the model does not. The default size 500 gives the same result either way.
- The `product_chunks` table's auto-increment primary key `id` and its timestamps. Rows are identified by their position, so ProductSearch.SearchChunksWithDetails returns the other selected columns and the distance, but not `id`.
- Negative `limit` values: limits are natural numbers.
- The legacy tiger `products` table is dropped by the chunk migration while the job and the legacy command still write to it. The model keeps it as its own keyed store.
