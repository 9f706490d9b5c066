/**
 * The `products:sync-chunks` command: check the API key, optionally
 * truncate the chunk store, then for every product of the catalogue delete
 * its chunks, chunk its title and description, embed every chunk and insert
 * one row per chunk, counting successes, errors and inserted chunks.
 */
module SyncProductChunks {
  import opened Wrappers
  import opened PhpText
  import opened TextChunking
  import opened Catalog
  import opened Tiger
  import opened EmbeddingService

  /** The command's options: --chunk-size, --overlap, --model and --fresh. */
  datatype Options = Options(chunkSize: int, overlap: int, model: string, freshSync: bool)

  const DefaultOptions: Options := Options(DefaultChunkSize, DefaultOverlap, DefaultModel, false)

  /** The counters the command reports. */
  datatype Report = Report(successCount: nat, errorCount: nat, totalChunks: nat)

  /** A product whose trimmed title and trimmed description are both empty is skipped. */
  predicate Skipped(p: Product)
  {
    IsPhpEmpty(Trim(OrEmpty(p.title))) && IsPhpEmpty(Trim(OrEmpty(p.description)))
  }

  /** The chunks of one product. */
  function ProductChunksOf(p: Product, opts: Options): seq<Keyed>
  {
    ChunkProductDescription(OrEmpty(p.title), OrEmpty(p.description), opts.chunkSize, opts.overlap)
  }

  /** The row inserted for one chunk: its key is chunk_index, and the metadata records its length and the chunk count. */
  function ChunkRowFor(p: Product, c: Keyed, total: nat, e: Embedding): ChunkRow
  {
    ChunkRow(p.id, c.text, c.index, ChunkMetadata(p.title, p.sku, |c.text|, total), e)
  }

  /** The rows inserted for the chunks from the j-th on, and whether every embedding succeeded. */
  datatype Insertion = Insertion(rows: seq<ChunkRow>, completed: bool)

  /** The inner loop from chunk j on: it stops at the first embedding that fails. */
  function InsertFrom(provider: Provider, model: string, p: Product, chunks: seq<Keyed>, j: nat): Insertion
    requires j <= |chunks|
    decreases |chunks| - j
  {
    if j == |chunks| then Insertion([], true)
    else
      match Embed(provider, chunks[j].text, model)
      case Failure(_) => Insertion([], false)
      case Success(e) =>
        var rest := InsertFrom(provider, model, p, chunks, j + 1);
        Insertion([ChunkRowFor(p, chunks[j], |chunks|, e)] + rest.rows, rest.completed)
  }

  /** `row` is the row written for the i-th chunk: its embedding succeeded and the row carries it. */
  predicate RowFor(provider: Provider, model: string, p: Product, chunks: seq<Keyed>, i: nat, row: ChunkRow)
    requires i < |chunks|
  {
    Embed(provider, chunks[i].text, model).Success? &&
    row == ChunkRowFor(p, chunks[i], |chunks|, Embed(provider, chunks[i].text, model).value)
  }

  /**
   * The inner loop writes one row per chunk, in chunk order, each holding
   * the chunk, its key, its length, the chunk count and the chunk's
   * embedding; it completes exactly when every chunk was embedded, and
   * otherwise stops right before the first chunk whose embedding failed.
   */
  lemma InsertFromCorrect(provider: Provider, model: string, p: Product, chunks: seq<Keyed>, j: nat)
    requires j <= |chunks|
    ensures var ins := InsertFrom(provider, model, p, chunks, j);
      j + |ins.rows| <= |chunks| && (ins.completed <==> j + |ins.rows| == |chunks|)
    ensures var ins := InsertFrom(provider, model, p, chunks, j);
      !ins.completed ==> Embed(provider, chunks[j + |ins.rows|].text, model).Failure?
    ensures var ins := InsertFrom(provider, model, p, chunks, j);
      forall k :: 0 <= k < |ins.rows| ==> RowFor(provider, model, p, chunks, j + k, ins.rows[k])
  {
    InsertFromStops(provider, model, p, chunks, j);
    InsertFromRows(provider, model, p, chunks, j);
  }

  /** Where the inner loop stops: after the last chunk, or right before the first failure. */
  lemma {:induction false} InsertFromStops(provider: Provider, model: string, p: Product, chunks: seq<Keyed>, j: nat)
    requires j <= |chunks|
    ensures var ins := InsertFrom(provider, model, p, chunks, j);
      j + |ins.rows| <= |chunks| && (ins.completed <==> j + |ins.rows| == |chunks|)
    ensures var ins := InsertFrom(provider, model, p, chunks, j);
      !ins.completed ==> Embed(provider, chunks[j + |ins.rows|].text, model).Failure?
    decreases |chunks| - j
  {
    if j < |chunks| {
      InsertFromStep(provider, model, p, chunks, j);
      if Embed(provider, chunks[j].text, model).Success? {
        InsertFromStops(provider, model, p, chunks, j + 1);
      }
    }
  }

  /** Every row the inner loop writes from chunk j on is the row of its chunk. */
  lemma InsertFromRows(provider: Provider, model: string, p: Product, chunks: seq<Keyed>, j: nat)
    requires j <= |chunks|
    ensures j + |InsertFrom(provider, model, p, chunks, j).rows| <= |chunks|
    ensures var ins := InsertFrom(provider, model, p, chunks, j);
      forall k :: 0 <= k < |ins.rows| ==> RowFor(provider, model, p, chunks, j + k, ins.rows[k])
  {
    InsertFromStops(provider, model, p, chunks, j);
    var ins := InsertFrom(provider, model, p, chunks, j);
    forall k | 0 <= k < |ins.rows| ensures RowFor(provider, model, p, chunks, j + k, ins.rows[k]) {
      InsertFromRow(provider, model, p, chunks, j, k);
    }
  }

  /** The k-th row the inner loop writes from chunk j on is the row of chunk j + k. */
  lemma {:induction false} InsertFromRow(provider: Provider, model: string, p: Product, chunks: seq<Keyed>, j: nat, k: nat)
    requires j <= |chunks| && k < |InsertFrom(provider, model, p, chunks, j).rows|
    ensures j + k < |chunks| && RowFor(provider, model, p, chunks, j + k, InsertFrom(provider, model, p, chunks, j).rows[k])
    decreases k
  {
    InsertFromStops(provider, model, p, chunks, j);
    InsertFromStep(provider, model, p, chunks, j);
    var ins := InsertFrom(provider, model, p, chunks, j);
    var e := Embed(provider, chunks[j].text, model);
    var rest := InsertFrom(provider, model, p, chunks, j + 1);
    var row := ChunkRowFor(p, chunks[j], |chunks|, e.value);
    assert ins.rows == [row] + rest.rows;
    if k == 0 {
      assert ins.rows[0] == row;
    } else {
      InsertFromRow(provider, model, p, chunks, j + 1, k - 1);
      assert ins.rows[k] == rest.rows[k - 1];
      assert j + 1 + (k - 1) == j + k;
    }
  }

  /** Every row the inner loop writes belongs to the product. */
  lemma InsertFromOwner(provider: Provider, model: string, p: Product, chunks: seq<Keyed>)
    ensures forall row :: row in InsertFrom(provider, model, p, chunks, 0).rows ==> row.productId == p.id
  {
    InsertFromCorrect(provider, model, p, chunks, 0);
  }

  /** The store and the counters. */
  datatype SyncState = SyncState(rows: seq<ChunkRow>, report: Report)

  /** One turn of the loop over products. */
  function SyncProduct(provider: Provider, opts: Options, p: Product, st: SyncState): SyncState
  {
    var r := st.report;
    if Skipped(p) then SyncState(st.rows, r.(errorCount := r.errorCount + 1))
    else
      var ins := InsertFrom(provider, opts.model, p, ProductChunksOf(p, opts), 0);
      var rows := WithoutProduct(st.rows, p.id) + ins.rows;
      var total := r.totalChunks + |ins.rows|;
      if ins.completed then SyncState(rows, Report(r.successCount + 1, r.errorCount, total))
      else SyncState(rows, Report(r.successCount, r.errorCount + 1, total))
  }

  /** The loop over the products, in catalogue order. */
  function SyncAll(provider: Provider, opts: Options, products: seq<Product>, st: SyncState): SyncState
  {
    if products == [] then st
    else SyncProduct(provider, opts, products[|products| - 1], SyncAll(provider, opts, products[..|products| - 1], st))
  }

  /** What the command returns and leaves in the store. */
  datatype RunResult = RunResult(code: ExitCode, rows: seq<ChunkRow>, report: Report)

  /** handle(), as a function of the catalogue and the store before the run. */
  function Run(provider: Provider, apiKey: Option<string>, products: seq<Product>, opts: Options, rows: seq<ChunkRow>): RunResult
  {
    if ApiKeyMissing(apiKey) then RunResult(ExitFailure, rows, Report(0, 0, 0))
    else
      var start := if opts.freshSync then [] else rows;
      if |products| == 0 then RunResult(ExitFailure, start, Report(0, 0, 0))
      else
        var st := SyncAll(provider, opts, products, SyncState(start, Report(0, 0, 0)));
        RunResult(ExitSuccess, st.rows, st.report)
  }

  /** One turn of the inner loop: a chunk whose embedding succeeds is followed by the rest; a failure ends the loop. */
  lemma InsertFromStep(provider: Provider, model: string, p: Product, chunks: seq<Keyed>, j: nat)
    requires j < |chunks|
    ensures var e := Embed(provider, chunks[j].text, model);
      InsertFrom(provider, model, p, chunks, j) ==
      if e.Failure? then Insertion([], false)
      else
        var rest := InsertFrom(provider, model, p, chunks, j + 1);
        Insertion([ChunkRowFor(p, chunks[j], |chunks|, e.value)] + rest.rows, rest.completed)
  {
  }

  /** The inner `foreach ($chunks as $index => $chunkText)` loop; an exception ends it. */
  method InsertChunks(table: ChunkTable, provider: Provider, model: string, product: Product, chunks: seq<Keyed>)
    returns (inserted: nat, completed: bool)
    modifies table
    ensures table.rows == old(table.rows) + InsertFrom(provider, model, product, chunks, 0).rows
    ensures inserted == |InsertFrom(provider, model, product, chunks, 0).rows|
    ensures completed == InsertFrom(provider, model, product, chunks, 0).completed
  {
    ghost var base := table.rows;
    ghost var whole := InsertFrom(provider, model, product, chunks, 0);
    inserted := 0;
    var j := 0;
    var failed := false;
    while j < |chunks| && !failed
      invariant 0 <= j <= |chunks|
      invariant !failed ==>
        table.rows + InsertFrom(provider, model, product, chunks, j).rows == base + whole.rows &&
        InsertFrom(provider, model, product, chunks, j).completed == whole.completed
      invariant failed ==> table.rows == base + whole.rows && !whole.completed
      invariant |table.rows| == |base| + inserted
      decreases |chunks| - j, if failed then 0 else 1
    {
      InsertFromStep(provider, model, product, chunks, j);
      var embedding := Embed(provider, chunks[j].text, model);
      if embedding.Failure? {
        failed := true;
      } else {
        var row := ChunkRowFor(product, chunks[j], |chunks|, embedding.value);
        ghost var rest := InsertFrom(provider, model, product, chunks, j + 1);
        assert table.rows + [row] + rest.rows == table.rows + ([row] + rest.rows);
        table.Insert(row);
        inserted := inserted + 1;
        j := j + 1;
      }
    }
    if !failed {
      assert table.rows == base + whole.rows;
    }
    completed := !failed;
  }

  /** The body of the loop over products: skip, or delete, chunk, embed and insert. */
  method SyncOne(table: ChunkTable, provider: Provider, opts: Options, product: Product, report: Report)
    returns (next: Report)
    modifies table
    ensures SyncState(table.rows, next) == SyncProduct(provider, opts, product, SyncState(old(table.rows), report))
  {
    if Skipped(product) {
      return report.(errorCount := report.errorCount + 1);
    }
    table.DeleteProduct(product.id);
    var chunks := ProductChunksOf(product, opts);
    var inserted, completed := InsertChunks(table, provider, opts.model, product, chunks);
    ghost var ins := InsertFrom(provider, opts.model, product, chunks, 0);
    assert table.rows == WithoutProduct(old(table.rows), product.id) + ins.rows;
    var total := report.totalChunks + inserted;
    if completed {
      next := Report(report.successCount + 1, report.errorCount, total);
    } else {
      next := Report(report.successCount, report.errorCount + 1, total);
    }
  }

  /** handle(): the command against the chunk store. */
  method Handle(table: ChunkTable, provider: Provider, apiKey: Option<string>, products: seq<Product>, opts: Options)
    returns (code: ExitCode, report: Report)
    modifies table
    ensures RunResult(code, table.rows, report) == Run(provider, apiKey, products, opts, old(table.rows))
  {
    if ApiKeyMissing(apiKey) {
      return ExitFailure, Report(0, 0, 0);
    }
    if opts.freshSync {
      table.Truncate();
    }
    var total := |products|;
    if total == 0 {
      return ExitFailure, Report(0, 0, 0);
    }
    ghost var start := SyncState(table.rows, Report(0, 0, 0));
    report := Report(0, 0, 0);
    for i := 0 to |products|
      invariant SyncState(table.rows, report) == SyncAll(provider, opts, products[..i], start)
    {
      assert products[..i + 1][..i] == products[..i];
      report := SyncOne(table, provider, opts, products[i], report);
    }
    assert products[..|products|] == products;
    code := ExitSuccess;
  }

  /** The ids of a list of products. */
  function Ids(products: seq<Product>): set<int>
  {
    set p | p in products :: p.id
  }

  /**
   * Every chunk of a product that is not skipped is non-empty text, so its
   * embedding is exactly the provider's answer: EmptyText never happens.
   */
  lemma ChunksEmbeddable(provider: Provider, opts: Options, p: Product)
    requires !Skipped(p)
    ensures forall c :: c in ProductChunksOf(p, opts) ==>
      Embed(provider, c.text, opts.model) == Create(provider, c.text, opts.model)
  {
    ProductChunksNonEmpty(OrEmpty(p.title), OrEmpty(p.description), opts.chunkSize, opts.overlap);
    forall c | c in ProductChunksOf(p, opts)
      ensures Embed(provider, c.text, opts.model) == Create(provider, c.text, opts.model)
    {
      EmbedCases(provider, c.text, opts.model);
    }
  }

  /**
   * One turn leaves the rows of every other product untouched and replaces
   * the product's own rows by the rows the inner loop wrote (a skipped
   * product keeps its rows, and its turn asks the provider nothing).
   */
  lemma SyncProductRows(provider: Provider, opts: Options, p: Product, st: SyncState, q: int)
    ensures q != p.id ==> OfProduct(SyncProduct(provider, opts, p, st).rows, q) == OfProduct(st.rows, q)
    ensures q == p.id ==> (OfProduct(SyncProduct(provider, opts, p, st).rows, q) ==
      if Skipped(p) then OfProduct(st.rows, q) else InsertFrom(provider, opts.model, p, ProductChunksOf(p, opts), 0).rows)
    ensures Skipped(p) ==> forall other: Provider :: SyncProduct(other, opts, p, st) == SyncProduct(provider, opts, p, st)
  {
    if !Skipped(p) {
      var ins := InsertFrom(provider, opts.model, p, ProductChunksOf(p, opts), 0);
      var kept := WithoutProduct(st.rows, p.id);
      assert SyncProduct(provider, opts, p, st).rows == kept + ins.rows;
      OfProductAppend(kept, ins.rows, q);
      OfProductWithout(st.rows, p.id, q);
      InsertFromOwner(provider, opts.model, p, ProductChunksOf(p, opts));
      OfProductOwned(ins.rows, q);
      if q == p.id {
        assert OfProduct(kept + ins.rows, q) == [] + ins.rows;
      } else {
        assert OfProduct(kept + ins.rows, q) == OfProduct(st.rows, q) + [];
      }
    }
  }

  /** Every processed product counts once, as a success or as an error. */
  lemma {:induction false} SyncAllCounts(provider: Provider, opts: Options, products: seq<Product>, st: SyncState)
    ensures var r := SyncAll(provider, opts, products, st).report;
      r.successCount + r.errorCount == st.report.successCount + st.report.errorCount + |products|
    ensures var r := SyncAll(provider, opts, products, st).report;
      r.successCount <= st.report.successCount + |products| && r.totalChunks >= st.report.totalChunks
  {
    if products != [] {
      SyncAllCounts(provider, opts, products[..|products| - 1], st);
    }
  }

  /** The rows of a product that is not in the catalogue survive the loop unchanged. */
  lemma {:induction false} SyncAllOthers(provider: Provider, opts: Options, products: seq<Product>, st: SyncState, q: int)
    requires q !in Ids(products)
    ensures OfProduct(SyncAll(provider, opts, products, st).rows, q) == OfProduct(st.rows, q)
  {
    if products != [] {
      var init, last := products[..|products| - 1], products[|products| - 1];
      assert forall p :: p in init ==> p in products;
      assert last in products;
      SyncAllOthers(provider, opts, init, st, q);
      SyncProductRows(provider, opts, last, SyncAll(provider, opts, init, st), q);
    }
  }

  /**
   * With distinct ids, after the loop a product that was not skipped owns
   * exactly the rows its own turn wrote (older rows of it are gone), and a
   * skipped product owns what it owned before.
   */
  lemma {:induction false} SyncAllProductRows(provider: Provider, opts: Options, products: seq<Product>, st: SyncState, i: nat)
    requires UniqueIds(products) && i < |products|
    ensures var p := products[i];
      OfProduct(SyncAll(provider, opts, products, st).rows, p.id) ==
      if Skipped(p) then OfProduct(st.rows, p.id) else InsertFrom(provider, opts.model, p, ProductChunksOf(p, opts), 0).rows
  {
    var init, last := products[..|products| - 1], products[|products| - 1];
    var p := products[i];
    SyncProductRows(provider, opts, last, SyncAll(provider, opts, init, st), p.id);
    if i == |products| - 1 {
      assert p.id !in Ids(init) by {
        forall x | x in init ensures x.id != p.id {
          var k :| 0 <= k < |init| && init[k] == x;
        }
      }
      SyncAllOthers(provider, opts, init, st, p.id);
    } else {
      assert last.id != p.id;
      SyncAllProductRows(provider, opts, init, st, i);
    }
  }

  /**
   * With distinct ids and no earlier rows for them, deletions remove
   * nothing, so the store grows by exactly the reported number of chunks.
   */
  lemma {:induction false} SyncAllSize(provider: Provider, opts: Options, products: seq<Product>, st: SyncState)
    requires UniqueIds(products)
    requires forall p :: p in products ==> OfProduct(st.rows, p.id) == []
    ensures var r := SyncAll(provider, opts, products, st);
      |r.rows| == |st.rows| + r.report.totalChunks - st.report.totalChunks
  {
    if products != [] {
      var init, last := products[..|products| - 1], products[|products| - 1];
      assert forall p :: p in init ==> p in products;
      assert last in products;
      SyncAllSize(provider, opts, init, st);
      var prev := SyncAll(provider, opts, init, st);
      if !Skipped(last) {
        assert last.id !in Ids(init) by {
          forall x | x in init ensures x.id != last.id {
            var k :| 0 <= k < |init| && init[k] == x;
          }
        }
        SyncAllOthers(provider, opts, init, st, last.id);
        WithoutAbsent(prev.rows, last.id);
      }
    }
  }

  /**
   * The command's outcomes: without an API key nothing is touched; an empty
   * catalogue fails after --fresh has already truncated the store; a fresh
   * sync of distinct ids ends with exactly as many rows as chunks reported.
   */
  lemma RunCorrect(provider: Provider, apiKey: Option<string>, products: seq<Product>, opts: Options, rows: seq<ChunkRow>)
    ensures ApiKeyMissing(apiKey) ==> Run(provider, apiKey, products, opts, rows) == RunResult(ExitFailure, rows, Report(0, 0, 0))
    ensures !ApiKeyMissing(apiKey) && products == [] ==>
      Run(provider, apiKey, products, opts, rows) == RunResult(ExitFailure, if opts.freshSync then [] else rows, Report(0, 0, 0))
    ensures var o := Run(provider, apiKey, products, opts, rows);
      !ApiKeyMissing(apiKey) && products != [] ==>
        o.code == ExitSuccess && o.report.successCount + o.report.errorCount == |products|
    ensures var o := Run(provider, apiKey, products, opts, rows);
      !ApiKeyMissing(apiKey) && products != [] && opts.freshSync && UniqueIds(products) ==>
        |o.rows| == o.report.totalChunks
  {
    if !ApiKeyMissing(apiKey) && products != [] {
      var start := SyncState(if opts.freshSync then [] else rows, Report(0, 0, 0));
      SyncAllCounts(provider, opts, products, start);
      if opts.freshSync && UniqueIds(products) {
        forall p | p in products ensures OfProduct(start.rows, p.id) == [] { }
        SyncAllSize(provider, opts, products, start);
      }
    }
  }
}
