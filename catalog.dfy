/**
 * The local catalogue: the Product model, its `active` scope, and the
 * exit codes of the Artisan commands that read it.
 */
module Catalog {
  import opened Wrappers
  import opened PhpText

  /** A row of the local `products` table; nullable columns are options. */
  datatype Product = Product(
    id: int,
    title: Option<string>,
    description: Option<string>,
    sku: Option<string>,
    price: real,
    stock: int,
    status: string,
    image: Option<string>,
    createdAt: Option<int>)

  /** `$value ?? ''` for a nullable string column. */
  function OrEmpty(s: Option<string>): string
  {
    match s
    case Some(v) => v
    case None => ""
  }

  /**
   * The text embedded for a whole product: title and description (null
   * read as '') joined by one space, then trimmed.
   */
  function EmbeddingInput(p: Product): string
  {
    Trim(OrEmpty(p.title) + " " + OrEmpty(p.description))
  }

  /** The `active` scope: status is exactly 'active'. */
  predicate IsActive(p: Product)
  {
    p.status == "active"
  }

  /** Every id of the list is the id of a single product (the primary key). */
  predicate UniqueIds(products: seq<Product>)
  {
    forall i, j :: 0 <= i < j < |products| ==> products[i].id != products[j].id
  }

  /** Command::SUCCESS and Command::FAILURE. */
  datatype ExitCode = ExitSuccess | ExitFailure

  /** `empty(Config::get('openai.api_key'))`: the key is unset, "" or "0". */
  predicate ApiKeyMissing(apiKey: Option<string>)
  {
    apiKey.None? || IsPhpEmpty(apiKey.value)
  }
}
