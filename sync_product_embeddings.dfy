/**
 * The legacy `products:sync-embeddings` command: check the API key, then
 * for every product embed "<title> <description>" as one text and upsert a
 * single row per product id into the tiger `products` table, counting
 * successes and errors.
 */
module SyncProductEmbeddings {
  import opened Wrappers
  import opened PhpText
  import opened Catalog
  import opened Tiger
  import opened EmbeddingService

  /** The counters the command reports. */
  datatype Report = Report(successCount: nat, errorCount: nat)

  /** A product whose input text is empty ("" or "0") is skipped and counted as an error. */
  predicate Skipped(p: Product)
  {
    IsPhpEmpty(EmbeddingInput(p))
  }

  /**
   * The text of a product that is not skipped is already trimmed and not
   * empty, so calling the provider directly, as the command does, gives the
   * same answer as the embedding service would.
   */
  lemma DirectCallIsEmbed(provider: Provider, model: string, p: Product)
    requires !Skipped(p)
    ensures Create(provider, EmbeddingInput(p), model) == Embed(provider, EmbeddingInput(p), model)
    ensures Create(provider, EmbeddingInput(p), model).Failure? ==> Create(provider, EmbeddingInput(p), model).error == ProviderFailure
  {
    TrimIdempotent(OrEmpty(p.title) + " " + OrEmpty(p.description));
    EmbedCases(provider, EmbeddingInput(p), model);
  }

  /** The table and the counters. */
  datatype SyncState = SyncState(rows: map<int, ProductRow>, report: Report)

  /** The row upserted for a product: both timestamps are the time of the run. */
  function RowFor(p: Product, e: Embedding, now: int): ProductRow
  {
    ProductRow(p.title, p.description, e, now, now)
  }

  /** One turn of the loop over products. */
  function SyncProduct(provider: Provider, model: string, now: int, p: Product, st: SyncState): SyncState
  {
    var r := st.report;
    if Skipped(p) then SyncState(st.rows, r.(errorCount := r.errorCount + 1))
    else
      match Create(provider, EmbeddingInput(p), model)
      case Failure(_) => SyncState(st.rows, r.(errorCount := r.errorCount + 1))
      case Success(e) => SyncState(st.rows[p.id := RowFor(p, e, now)], r.(successCount := r.successCount + 1))
  }

  /** The loop over the products, in catalogue order. */
  function SyncAll(provider: Provider, model: string, now: int, products: seq<Product>, st: SyncState): SyncState
  {
    if products == [] then st
    else SyncProduct(provider, model, now, products[|products| - 1], SyncAll(provider, model, now, products[..|products| - 1], st))
  }

  /** What the command returns and leaves in the table. */
  datatype RunResult = RunResult(code: ExitCode, rows: map<int, ProductRow>, report: Report)

  /** handle(), as a function of the catalogue and the table before the run. */
  function Run(provider: Provider, apiKey: Option<string>, products: seq<Product>, model: string, now: int,
               rows: map<int, ProductRow>): RunResult
  {
    if ApiKeyMissing(apiKey) || |products| == 0 then RunResult(ExitFailure, rows, Report(0, 0))
    else
      var st := SyncAll(provider, model, now, products, SyncState(rows, Report(0, 0)));
      RunResult(ExitSuccess, st.rows, st.report)
  }

  /** The body of the loop over products: skip, or embed and upsert. */
  method SyncOne(table: ProductTable, provider: Provider, model: string, now: int, product: Product, report: Report)
    returns (next: Report)
    modifies table
    ensures SyncState(table.rows, next) == SyncProduct(provider, model, now, product, SyncState(old(table.rows), report))
  {
    var inputText := EmbeddingInput(product);
    if IsPhpEmpty(inputText) {
      return report.(errorCount := report.errorCount + 1);
    }
    var response := Create(provider, inputText, model);
    if response.Failure? {
      return report.(errorCount := report.errorCount + 1);
    }
    table.UpdateOrInsert(product.id, RowFor(product, response.value, now));
    next := report.(successCount := report.successCount + 1);
  }

  /** handle(): the command against the tiger `products` table. */
  method Handle(table: ProductTable, provider: Provider, apiKey: Option<string>, products: seq<Product>, model: string, now: int)
    returns (code: ExitCode, report: Report)
    modifies table
    ensures RunResult(code, table.rows, report) == Run(provider, apiKey, products, model, now, old(table.rows))
  {
    if ApiKeyMissing(apiKey) {
      return ExitFailure, Report(0, 0);
    }
    var total := |products|;
    if total == 0 {
      return ExitFailure, Report(0, 0);
    }
    ghost var start := SyncState(table.rows, Report(0, 0));
    report := Report(0, 0);
    for i := 0 to |products|
      invariant SyncState(table.rows, report) == SyncAll(provider, model, now, products[..i], start)
    {
      assert products[..i + 1][..i] == products[..i];
      report := SyncOne(table, provider, model, now, products[i], report);
    }
    assert products[..|products|] == products;
    code := ExitSuccess;
  }

  /** A product is stored by the run: its text is not empty and the provider embeds it. */
  predicate Stored(provider: Provider, model: string, p: Product)
  {
    !Skipped(p) && provider(EmbeddingInput(p), model).Some?
  }

  /** How many products of the list are stored. */
  function CountStored(provider: Provider, model: string, products: seq<Product>): (n: nat)
    ensures n <= |products|
  {
    if products == [] then 0
    else CountStored(provider, model, products[..|products| - 1]) + (if Stored(provider, model, products[|products| - 1]) then 1 else 0)
  }

  /**
   * Every product counts once: the successes are exactly the stored
   * products, and every other product is an error.
   */
  lemma {:induction false} SyncAllCounts(provider: Provider, model: string, now: int, products: seq<Product>, st: SyncState)
    ensures var r := SyncAll(provider, model, now, products, st).report;
      r.successCount == st.report.successCount + CountStored(provider, model, products) &&
      r.errorCount == st.report.errorCount + |products| - CountStored(provider, model, products)
  {
    if products != [] {
      SyncAllCounts(provider, model, now, products[..|products| - 1], st);
    }
  }

  /** The ids of the stored products of a list. */
  function StoredIds(provider: Provider, model: string, products: seq<Product>): set<int>
  {
    set p | p in products && Stored(provider, model, p) :: p.id
  }

  /**
   * After the loop the table holds a row for an id exactly when it held one
   * before or a product with that id was stored; no row is ever removed.
   */
  lemma SyncAllKeys(provider: Provider, model: string, now: int, products: seq<Product>, st: SyncState)
    ensures SyncAll(provider, model, now, products, st).rows.Keys == st.rows.Keys + StoredIds(provider, model, products)
  {
    forall id ensures id in SyncAll(provider, model, now, products, st).rows <==>
      id in st.rows || id in StoredIds(provider, model, products)
    {
      SyncAllHasRow(provider, model, now, products, st, id);
    }
  }

  /** SyncAllKeys for one id. */
  lemma {:induction false} SyncAllHasRow(provider: Provider, model: string, now: int, products: seq<Product>, st: SyncState,
                                         id: int)
    ensures id in SyncAll(provider, model, now, products, st).rows <==>
      id in st.rows || id in StoredIds(provider, model, products)
  {
    if products != [] {
      var init, last := products[..|products| - 1], products[|products| - 1];
      var prev := SyncAll(provider, model, now, init, st);
      assert products == init + [last];
      SyncProductKeys(provider, model, now, last, prev);
      SyncAllHasRow(provider, model, now, init, st, id);
      StoredIdsSnoc(provider, model, init, last);
    }
  }

  /** One turn adds the product's id to the table's ids exactly when the product is stored. */
  lemma SyncProductKeys(provider: Provider, model: string, now: int, p: Product, st: SyncState)
    ensures SyncProduct(provider, model, now, p, st).rows.Keys ==
      st.rows.Keys + (if Stored(provider, model, p) then {p.id} else {})
  {
  }

  /** Appending a product adds its id to the stored ids exactly when it is stored. */
  lemma StoredIdsSnoc(provider: Provider, model: string, init: seq<Product>, last: Product)
    ensures StoredIds(provider, model, init + [last]) ==
      StoredIds(provider, model, init) + (if Stored(provider, model, last) then {last.id} else {})
  {
    var products := init + [last];
    forall id | id in StoredIds(provider, model, products)
      ensures id in StoredIds(provider, model, init) || (Stored(provider, model, last) && id == last.id)
    {
      var p :| p in products && Stored(provider, model, p) && p.id == id;
      if p != last {
        assert p in init;
      }
    }
    forall id | id in StoredIds(provider, model, init) ensures id in StoredIds(provider, model, products) {
      var p :| p in init && Stored(provider, model, p) && p.id == id;
      assert p in products;
    }
    if Stored(provider, model, last) {
      assert last in products;
    }
  }

  /** The row of an id no product of the list has is left exactly as it was. */
  lemma {:induction false} SyncAllOthers(provider: Provider, model: string, now: int, products: seq<Product>, st: SyncState, id: int)
    requires forall p :: p in products ==> p.id != id
    ensures var rows := SyncAll(provider, model, now, products, st).rows;
      (id in rows <==> id in st.rows) && (id in rows ==> rows[id] == st.rows[id])
  {
    if products != [] {
      var init := products[..|products| - 1];
      assert forall p :: p in init ==> p in products;
      SyncAllOthers(provider, model, now, init, st, id);
    }
  }

  /** One turn stores the product's row when it is stored, and touches no other id. */
  lemma SyncProductRow(provider: Provider, model: string, now: int, p: Product, st: SyncState, id: int)
    ensures var rows := SyncProduct(provider, model, now, p, st).rows;
      if id == p.id && Stored(provider, model, p) then
        id in rows && rows[id] == RowFor(p, provider(EmbeddingInput(p), model).value, now)
      else
        (id in rows <==> id in st.rows) && (id in rows ==> rows[id] == st.rows[id])
  {
  }

  /**
   * With distinct ids, a stored product's row holds its title, its
   * description, the provider's embedding of its text and the run's time as
   * both timestamps; the row of a product that was not stored is untouched.
   */
  lemma {:induction false} SyncAllProductRow(provider: Provider, model: string, now: int, products: seq<Product>, st: SyncState, i: nat)
    requires UniqueIds(products) && i < |products|
    ensures var p, rows := products[i], SyncAll(provider, model, now, products, st).rows;
      if Stored(provider, model, p) then
        p.id in rows && rows[p.id] == RowFor(p, provider(EmbeddingInput(p), model).value, now)
      else
        (p.id in rows <==> p.id in st.rows) && (p.id in rows ==> rows[p.id] == st.rows[p.id])
  {
    var n := |products| - 1;
    var init, last := products[..n], products[n];
    var prev := SyncAll(provider, model, now, init, st);
    assert SyncAll(provider, model, now, products, st) == SyncProduct(provider, model, now, last, prev);
    var p := products[i];
    SyncProductRow(provider, model, now, last, prev, p.id);
    if i == n {
      forall x | x in init ensures x.id != last.id {
        var k :| 0 <= k < |init| && init[k] == x;
        assert products[k] == x;
      }
      SyncAllOthers(provider, model, now, init, st, last.id);
    } else {
      assert last.id != p.id;
      assert UniqueIds(init) by {
        forall a, b | 0 <= a < b < |init| ensures init[a].id != init[b].id {
          assert init[a] == products[a] && init[b] == products[b];
        }
      }
      assert init[i] == p;
      SyncAllProductRow(provider, model, now, init, st, i);
    }
  }

  /**
   * The command's outcomes: without an API key or without products nothing
   * is touched and it fails; otherwise it succeeds and every product is
   * counted once.
   */
  lemma RunCorrect(provider: Provider, apiKey: Option<string>, products: seq<Product>, model: string, now: int,
                   rows: map<int, ProductRow>)
    ensures ApiKeyMissing(apiKey) || products == [] ==>
      Run(provider, apiKey, products, model, now, rows) == RunResult(ExitFailure, rows, Report(0, 0))
    ensures var o := Run(provider, apiKey, products, model, now, rows);
      !ApiKeyMissing(apiKey) && products != [] ==>
        o.code == ExitSuccess && o.report.successCount == CountStored(provider, model, products) &&
        o.report.successCount + o.report.errorCount == |products|
  {
    if !ApiKeyMissing(apiKey) && products != [] {
      SyncAllCounts(provider, model, now, products, SyncState(rows, Report(0, 0)));
    }
  }
}
