/**
 * The queued `SyncProductToTigerData` job: keep the legacy tiger `products`
 * table in step with one product, either deleting its row or embedding
 * "<title> <description>" and upserting the row keyed by the product id.
 */
module TigerSyncJob {
  import opened Wrappers
  import opened PhpText
  import opened Catalog
  import opened Tiger
  import opened EmbeddingService

  /** The job's payload: the product and whether to delete it. */
  datatype SyncJob = SyncJob(product: Product, shouldDelete: bool)

  /** `$value ?? now()` for the nullable created_at column. */
  function OrNow(createdAt: Option<int>, now: int): int
  {
    match createdAt
    case Some(t) => t
    case None => now
  }

  /** The row upserted for a product: its created_at (or now) and now as updated_at. */
  function RowFor(p: Product, e: Embedding, now: int): ProductRow
  {
    ProductRow(p.title, p.description, e, OrNow(p.createdAt, now), now)
  }

  /** What handle() does to the table, and whether it returns or rethrows. */
  datatype Effect = Effect(result: Outcome<EmbeddingError>, rows: map<int, ProductRow>)

  /** handle(), as a function of the job and the table before it runs. */
  function JobEffect(provider: Provider, job: SyncJob, now: int, rows: map<int, ProductRow>): Effect
  {
    var p := job.product;
    if job.shouldDelete then Effect(Pass, rows - {p.id})
    else if IsPhpEmpty(EmbeddingInput(p)) then Effect(Pass, rows)
    else
      match Embed(provider, EmbeddingInput(p), DefaultModel)
      case Failure(err) => Effect(Fail(err), rows)
      case Success(e) => Effect(Pass, rows[p.id := RowFor(p, e, now)])
  }

  /** handle(): the job against the tiger `products` table. */
  method Handle(table: ProductTable, provider: Provider, job: SyncJob, now: int) returns (result: Outcome<EmbeddingError>)
    modifies table
    ensures Effect(result, table.rows) == JobEffect(provider, job, now, old(table.rows))
  {
    if job.shouldDelete {
      table.Delete(job.product.id);
      return Pass;
    }
    var inputText := EmbeddingInput(job.product);
    if IsPhpEmpty(inputText) {
      return Pass;
    }
    var embedding := Embed(provider, inputText, DefaultModel);
    if embedding.Failure? {
      return Fail(embedding.error);
    }
    table.UpdateOrInsert(job.product.id, RowFor(job.product, embedding.value, now));
    result := Pass;
  }

  /**
   * The job's effect case by case: a delete removes exactly the product's
   * row and asks the provider nothing; an empty text changes nothing and
   * asks nothing; otherwise the text reaches the provider unchanged, a
   * failure rethrows with the table untouched, and a success leaves
   * exactly one row under the id, holding the current title, description,
   * embedding, the product's created_at (or now) and now.
   */
  lemma JobEffectCorrect(provider: Provider, job: SyncJob, now: int, rows: map<int, ProductRow>)
    ensures var p, r := job.product, JobEffect(provider, job, now, rows);
      job.shouldDelete ==> r.result == Pass && p.id !in r.rows && r.rows.Keys == rows.Keys - {p.id}
    ensures var p, r := job.product, JobEffect(provider, job, now, rows);
      !job.shouldDelete && IsPhpEmpty(EmbeddingInput(p)) ==> r == Effect(Pass, rows)
    ensures var p, r := job.product, JobEffect(provider, job, now, rows);
      (job.shouldDelete || IsPhpEmpty(EmbeddingInput(p))) ==>
        forall other: Provider :: JobEffect(other, job, now, rows) == r
    ensures var p, r := job.product, JobEffect(provider, job, now, rows);
      !job.shouldDelete && !IsPhpEmpty(EmbeddingInput(p)) && provider(EmbeddingInput(p), DefaultModel).None? ==>
        r == Effect(Fail(ProviderFailure), rows)
    ensures var p, r := job.product, JobEffect(provider, job, now, rows);
      !job.shouldDelete && !IsPhpEmpty(EmbeddingInput(p)) && provider(EmbeddingInput(p), DefaultModel).Some? ==>
        r.result == Pass && p.id in r.rows &&
        r.rows[p.id] == ProductRow(p.title, p.description, provider(EmbeddingInput(p), DefaultModel).value,
                                   if p.createdAt.Some? then p.createdAt.value else now, now)
    ensures var p, r := job.product, JobEffect(provider, job, now, rows);
      forall id :: id != p.id ==> (id in r.rows <==> id in rows) && (id in rows ==> r.rows[id] == rows[id])
  {
    var p := job.product;
    if !job.shouldDelete && !IsPhpEmpty(EmbeddingInput(p)) {
      TrimIdempotent(OrEmpty(p.title) + " " + OrEmpty(p.description));
      EmbedCases(provider, EmbeddingInput(p), DefaultModel);
    }
  }
}
