/**
 * The `ProductObserver`: which sync job, if any, each model event of a
 * product dispatches to keep the legacy tiger `products` table current.
 */
module ProductObserver {
  import opened Wrappers
  import opened PhpText
  import opened Catalog
  import opened Tiger
  import opened EmbeddingService
  import opened TigerSyncJob

  /** A model event: created, updated (the attributes before and after the save), or deleted. */
  datatype ProductEvent =
    | Created(product: Product)
    | Updated(original: Product, product: Product)
    | Deleted(product: Product)

  /** `wasChanged(['title', 'description'])`: the save changed the title or the description. */
  predicate TextChanged(original: Product, product: Product)
  {
    original.title != product.title || original.description != product.description
  }

  /** The job each handler dispatches, if any. */
  function Dispatch(e: ProductEvent): Option<SyncJob>
  {
    match e
    case Created(p) => Some(SyncJob(p, false))
    case Updated(original, p) => if TextChanged(original, p) then Some(SyncJob(p, false)) else None
    case Deleted(p) => Some(SyncJob(p, true))
  }

  /**
   * A creation dispatches one upsert job for the product, a deletion one
   * delete job, and an update dispatches an upsert job of the saved product
   * exactly when its title or description changed: a change to the price,
   * stock, sku, image or status alone dispatches nothing.
   */
  lemma DispatchCorrect(e: ProductEvent)
    ensures e.Created? ==> Dispatch(e) == Some(SyncJob(e.product, false))
    ensures e.Deleted? ==> Dispatch(e) == Some(SyncJob(e.product, true))
    ensures e.Updated? ==>
      (Dispatch(e).Some? <==> e.original.title != e.product.title || e.original.description != e.product.description)
    ensures e.Updated? && Dispatch(e).Some? ==> Dispatch(e).value == SyncJob(e.product, false)
    ensures Dispatch(e).Some? ==> Dispatch(e).value.product == e.product
  {
  }

  /** The table after the event's job, if any, has run. */
  function AfterEvent(provider: Provider, e: ProductEvent, now: int, rows: map<int, ProductRow>): Effect
  {
    match Dispatch(e)
    case None => Effect(Pass, rows)
    case Some(job) => JobEffect(provider, job, now, rows)
  }

  /** The table's row for the product, if any, carries the product's title and description. */
  predicate Mirrors(rows: map<int, ProductRow>, p: Product)
  {
    p.id in rows ==> rows[p.id].title == p.title && rows[p.id].description == p.description
  }

  /**
   * The observer keeps the table's copy of a product current: after a
   * deletion the product has no row; after a creation or update whose job
   * succeeds on a non-empty text the row mirrors the saved product; an
   * update that leaves the text alone keeps a mirroring row mirroring.
   * A text emptied by an update leaves the old row in place.
   */
  lemma AfterEventMirrors(provider: Provider, e: ProductEvent, now: int, rows: map<int, ProductRow>)
    ensures e.Deleted? ==> e.product.id !in AfterEvent(provider, e, now, rows).rows
    ensures var r := AfterEvent(provider, e, now, rows);
      !e.Deleted? && !IsPhpEmpty(EmbeddingInput(e.product)) && r.result == Pass &&
      (e.Created? || TextChanged(e.original, e.product)) ==>
        e.product.id in r.rows && Mirrors(r.rows, e.product)
    ensures var r := AfterEvent(provider, e, now, rows);
      e.Updated? && e.original.id == e.product.id && !TextChanged(e.original, e.product) && Mirrors(rows, e.original) ==>
        r == Effect(Pass, rows) && Mirrors(r.rows, e.product)
    ensures var r := AfterEvent(provider, e, now, rows);
      !e.Deleted? && IsPhpEmpty(EmbeddingInput(e.product)) ==> r == Effect(Pass, rows)
  {
    if Dispatch(e).Some? {
      JobEffectCorrect(provider, Dispatch(e).value, now, rows);
    }
  }
}
