/**
 * The tiger database: the `product_chunks` table that the chunk sync fills
 * and the searches read, and the legacy `products` table kept up to date by
 * the queued job and the legacy embedding sync.
 */
module Tiger {
  import opened Wrappers

  /** An embedding vector; its 1536 components are not modelled. */
  type Embedding = seq<real>

  const Dimensions: nat := 1536

  /** The JSON metadata stored with every chunk. */
  datatype ChunkMetadata = ChunkMetadata(
    productTitle: Option<string>,
    productSku: Option<string>,
    chunkLength: nat,
    totalChunks: nat)

  /** A row of `product_chunks` (the surrogate id and timestamps are left out). */
  datatype ChunkRow = ChunkRow(
    productId: int,
    chunkText: string,
    chunkIndex: int,
    metadata: ChunkMetadata,
    embedding: Embedding)

  /** The rows belonging to one product, in table order. */
  function OfProduct(rows: seq<ChunkRow>, id: int): (r: seq<ChunkRow>)
    ensures forall row :: row in r <==> row in rows && row.productId == id
    ensures |r| <= |rows|
  {
    if rows == [] then []
    else
      var p := OfProduct(rows[..|rows| - 1], id);
      assert rows == rows[..|rows| - 1] + [rows[|rows| - 1]];
      if rows[|rows| - 1].productId == id then p + [rows[|rows| - 1]] else p
  }

  /** `DELETE FROM product_chunks WHERE product_id = id`, as a value. */
  function WithoutProduct(rows: seq<ChunkRow>, id: int): (r: seq<ChunkRow>)
    ensures forall row :: row in r <==> row in rows && row.productId != id
    ensures |r| <= |rows|
  {
    if rows == [] then []
    else
      var p := WithoutProduct(rows[..|rows| - 1], id);
      assert rows == rows[..|rows| - 1] + [rows[|rows| - 1]];
      if rows[|rows| - 1].productId != id then p + [rows[|rows| - 1]] else p
  }

  lemma {:induction false} OfProductAppend(a: seq<ChunkRow>, b: seq<ChunkRow>, id: int)
    ensures OfProduct(a + b, id) == OfProduct(a, id) + OfProduct(b, id)
    decreases |b|
  {
    if b == [] {
      assert a + b == a;
    } else {
      assert (a + b)[..|a + b| - 1] == a + b[..|b| - 1];
      OfProductAppend(a, b[..|b| - 1], id);
    }
  }

  /**
   * Deleting one product's rows empties that product and leaves every
   * other product's rows exactly as they were, in the same order.
   */
  lemma {:induction false} OfProductWithout(rows: seq<ChunkRow>, id: int, q: int)
    ensures OfProduct(WithoutProduct(rows, id), q) == if q == id then [] else OfProduct(rows, q)
  {
    if rows != [] {
      var init, last := rows[..|rows| - 1], rows[|rows| - 1];
      OfProductWithout(init, id, q);
      if last.productId != id {
        OfProductAppend(WithoutProduct(init, id), [last], q);
      }
    }
  }

  /** Rows that all belong to `id` are their own selection; rows none of which do select nothing. */
  lemma {:induction false} OfProductOwned(rows: seq<ChunkRow>, id: int)
    ensures (forall row :: row in rows ==> row.productId == id) ==> OfProduct(rows, id) == rows
    ensures (forall row :: row in rows ==> row.productId != id) ==> OfProduct(rows, id) == []
  {
    if rows != [] {
      var init := rows[..|rows| - 1];
      assert forall row :: row in init ==> row in rows;
      OfProductOwned(init, id);
      assert rows == init + [rows[|rows| - 1]];
    }
  }

  /** Deleting a product that has no rows changes nothing. */
  lemma {:induction false} WithoutAbsent(rows: seq<ChunkRow>, id: int)
    requires OfProduct(rows, id) == []
    ensures WithoutProduct(rows, id) == rows
  {
    if rows != [] {
      var init := rows[..|rows| - 1];
      assert rows == init + [rows[|rows| - 1]];
      assert rows[|rows| - 1] in rows;
      OfProductAppend(init, [rows[|rows| - 1]], id);
      assert OfProduct(init, id) == [];
      WithoutAbsent(init, id);
    }
  }

  /** The chunk store, updated in place by the chunk sync. */
  class ChunkTable {
    var rows: seq<ChunkRow>

    constructor(initial: seq<ChunkRow>)
      ensures rows == initial
    {
      rows := initial;
    }

    /** TRUNCATE product_chunks. */
    method Truncate()
      modifies this
      ensures rows == []
    {
      rows := [];
    }

    /** DELETE ... WHERE product_id = id. */
    method DeleteProduct(id: int)
      modifies this
      ensures rows == WithoutProduct(old(rows), id)
    {
      rows := WithoutProduct(rows, id);
    }

    /** INSERT of one row. */
    method Insert(row: ChunkRow)
      modifies this
      ensures rows == old(rows) + [row]
    {
      rows := rows + [row];
    }
  }

  /** A row of the legacy tiger `products` table, keyed by the product id. */
  datatype ProductRow = ProductRow(
    title: Option<string>,
    description: Option<string>,
    embedding: Embedding,
    createdAt: int,
    updatedAt: int)

  /** The legacy `products` table: at most one row per id. */
  class ProductTable {
    var rows: map<int, ProductRow>

    constructor(initial: map<int, ProductRow>)
      ensures rows == initial
    {
      rows := initial;
    }

    /** DELETE ... WHERE id = id. */
    method Delete(id: int)
      modifies this
      ensures rows == old(rows) - {id}
    {
      rows := rows - {id};
    }

    /** updateOrInsert(['id' => id], row): replace the row with that id, or add it. */
    method UpdateOrInsert(id: int, row: ProductRow)
      modifies this
      ensures rows == old(rows)[id := row]
    {
      rows := rows[id := row];
    }
  }
}
