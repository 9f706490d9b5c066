/**
 * The web routes: the home page (newest active products, or the products
 * found by semantic search, 24 to a page, with an empty page whenever the
 * search fails) and the product page, which only shows active products.
 */
module WebRoutes {
  import opened Wrappers
  import opened PhpText
  import opened Catalog
  import opened Tiger
  import opened EmbeddingService
  import opened ProductSearch

  const PerPage: nat := 24
  const SearchLimit: nat := 20
  const SearchMaxDistance: real := 0.8

  /** What the paginator hands to the view: the products of the page and the total count. */
  datatype Page = Page(items: seq<Product>, total: nat)

  const EmptyPage: Page := Page([], 0)

  /** PHP truthiness of the `q` parameter: present and neither "" nor "0". */
  predicate Truthy(q: Option<string>)
  {
    q.Some? && !IsPhpEmpty(q.value)
  }

  /** The offset forPage() starts at: `max(0, (page - 1) * perPage)`. */
  function PageOffset(page: int, perPage: nat): (offset: nat)
    ensures page >= 1 ==> offset == (page - 1) * perPage
    ensures page < 1 ==> offset == 0
  {
    if page <= 1 then 0 else (page - 1) * perPage
  }

  /** Collection::forPage(): at most perPage items, starting at the page's offset. */
  function ForPage(items: seq<Product>, page: int, perPage: nat): (r: seq<Product>)
    ensures var offset := PageOffset(page, perPage);
      |r| == (if offset >= |items| then 0 else Min(perPage, |items| - offset))
    ensures forall j :: 0 <= j < |r| ==> PageOffset(page, perPage) + j < |items| && r[j] == items[PageOffset(page, perPage) + j]
  {
    var offset := PageOffset(page, perPage);
    if offset >= |items| then [] else items[offset..Min(offset + perPage, |items|)]
  }

  /** Pages 1 to n, shown one after the other. */
  function Pages(items: seq<Product>, perPage: nat, n: nat): seq<Product>
  {
    if n == 0 then [] else Pages(items, perPage, n - 1) + ForPage(items, n, perPage)
  }

  /**
   * With a positive page size the pages tile the list: pages 1 to n, read
   * in turn, are exactly its first n * perPage items, so every item is
   * shown once, on one page, in list order.
   */
  lemma {:induction false} PagesTile(items: seq<Product>, perPage: nat, n: nat)
    requires perPage > 0
    ensures Pages(items, perPage, n) == items[..Min(n * perPage, |items|)]
  {
    if n > 0 {
      PagesTile(items, perPage, n - 1);
      var offset := (n - 1) * perPage;
      assert n * perPage == offset + perPage;
      PagesStep(items, perPage, n, offset);
    }
  }

  /** Page n continues the first n - 1 pages, which end at the page's offset. */
  lemma PagesStep(items: seq<Product>, perPage: nat, n: nat, offset: nat)
    requires n > 0 && offset == (n - 1) * perPage
    requires Pages(items, perPage, n - 1) == items[..Min(offset, |items|)]
    ensures Pages(items, perPage, n) == items[..Min(offset + perPage, |items|)]
  {
    var prev, pg := items[..Min(offset, |items|)], ForPage(items, n, perPage);
    assert PageOffset(n, perPage) == offset;
    if offset < |items| {
      assert pg == items[offset..Min(offset + perPage, |items|)];
      assert items[..Min(offset + perPage, |items|)] == prev + pg;
    } else {
      assert pg == [];
    }
  }

  /** `a` comes no later than `b` under ORDER BY created_at DESC, with null created_at sorting last. */
  predicate NewerOrEqual(a: Product, b: Product)
  {
    b.createdAt.None? || (a.createdAt.Some? && a.createdAt.value >= b.createdAt.value)
  }

  /** `a` strictly before `b`: a newer product, or a dated one before an undated one. */
  predicate StrictlyNewer(a: Product, b: Product)
  {
    a.createdAt.Some? && (b.createdAt.None? || a.createdAt.value > b.createdAt.value)
  }

  predicate NewestFirstOrder(s: seq<Product>)
  {
    forall i, j :: 0 <= i < j < |s| ==> NewerOrEqual(s[i], s[j])
  }

  /** Insert `x` after every leading product at least as new as it. */
  function InsertNewest(t: seq<Product>, x: Product): seq<Product>
  {
    if t == [] then [x]
    else if StrictlyNewer(x, t[0]) then [x] + t
    else [t[0]] + InsertNewest(t[1..], x)
  }

  lemma {:induction false} InsertNewestPermutes(t: seq<Product>, x: Product)
    ensures multiset(InsertNewest(t, x)) == multiset(t) + multiset{x}
  {
    if t != [] && !StrictlyNewer(x, t[0]) {
      InsertNewestPermutes(t[1..], x);
      assert t == [t[0]] + t[1..];
    }
  }

  lemma {:induction false} InsertNewestSorted(t: seq<Product>, x: Product)
    requires NewestFirstOrder(t)
    ensures NewestFirstOrder(InsertNewest(t, x))
    decreases |t|
  {
    if t != [] {
      if StrictlyNewer(x, t[0]) {
        forall e | e in t ensures NewerOrEqual(x, e) {
          var j :| 0 <= j < |t| && t[j] == e;
          if j > 0 {
            assert NewerOrEqual(t[0], t[j]);
          }
        }
        NewestCons(x, t);
      } else {
        var u := InsertNewest(t[1..], x);
        InsertNewestSorted(t[1..], x);
        InsertNewestPermutes(t[1..], x);
        forall e | e in u ensures NewerOrEqual(t[0], e) {
          assert e in multiset(t[1..]) + multiset{x};
          if e != x {
            var j :| 0 <= j < |t[1..]| && t[1..][j] == e;
            assert t[1 + j] == e;
          }
        }
        NewestCons(t[0], u);
      }
    }
  }

  /** A product at least as new as every product of a newest-first list may lead it. */
  lemma NewestCons(h: Product, u: seq<Product>)
    requires NewestFirstOrder(u)
    requires forall e | e in u :: NewerOrEqual(h, e)
    ensures NewestFirstOrder([h] + u)
  {
    var r := [h] + u;
    forall i, j | 0 <= i < j < |r| ensures NewerOrEqual(r[i], r[j]) {
      if i == 0 {
        assert r[j] == u[j - 1];
      } else {
        assert r[i] == u[i - 1] && r[j] == u[j - 1];
      }
    }
  }

  /** The `ORDER BY created_at DESC` of the home page, stable on ties. */
  function NewestFirst(s: seq<Product>): seq<Product>
  {
    if s == [] then [] else InsertNewest(NewestFirst(s[..|s| - 1]), s[|s| - 1])
  }

  /** The ordering is a permutation of the products, newest first, undated ones last. */
  lemma {:induction false} NewestFirstCorrect(s: seq<Product>)
    ensures multiset(NewestFirst(s)) == multiset(s)
    ensures NewestFirstOrder(NewestFirst(s))
  {
    if s != [] {
      var p, x := s[..|s| - 1], s[|s| - 1];
      NewestFirstCorrect(p);
      InsertNewestPermutes(NewestFirst(p), x);
      InsertNewestSorted(NewestFirst(p), x);
      assert s == p + [x];
    }
  }

  /** `Product::query()->active()`: the active products, in catalogue order. */
  function Active(catalog: seq<Product>): (r: seq<Product>)
    ensures forall p :: p in r <==> p in catalog && IsActive(p)
  {
    if catalog == [] then []
    else
      var init, last := catalog[..|catalog| - 1], catalog[|catalog| - 1];
      assert catalog == init + [last];
      Active(init) + (if IsActive(last) then [last] else [])
  }

  /** `$productsCollection->firstWhere('id', $id)` over the active products. */
  function FirstActive(catalog: seq<Product>, id: int): (r: Option<Product>)
    ensures r.Some? ==> r.value in catalog && IsActive(r.value) && r.value.id == id
    ensures r.None? <==> forall p :: p in catalog && IsActive(p) ==> p.id != id
  {
    if catalog == [] then None
    else if IsActive(catalog[0]) && catalog[0].id == id then Some(catalog[0])
    else FirstActive(catalog[1..], id)
  }

  /** The positions of the ids that have an active product, in order. */
  function Hits(ids: seq<int>, catalog: seq<Product>): (hs: seq<nat>)
    ensures forall k :: 0 <= k < |hs| ==> hs[k] < |ids| && FirstActive(catalog, ids[hs[k]]).Some?
    ensures forall k, l :: 0 <= k < l < |hs| ==> hs[k] < hs[l]
    ensures forall i :: 0 <= i < |ids| && FirstActive(catalog, ids[i]).Some? ==> i in hs
  {
    if ids == [] then []
    else
      var init := Hits(ids[..|ids| - 1], catalog);
      if FirstActive(catalog, ids[|ids| - 1]).Some? then init + [|ids| - 1] else init
  }

  /** `collect($productIds)->map(firstWhere)->filter()`: the products in id order, misses dropped. */
  function OrderedActive(ids: seq<int>, catalog: seq<Product>): (r: seq<Product>)
    ensures var hs := Hits(ids, catalog);
      |r| == |hs| && forall k :: 0 <= k < |r| ==> r[k] == FirstActive(catalog, ids[hs[k]]).value
  {
    var hs := Hits(ids, catalog);
    seq(|hs|, k requires 0 <= k < |hs| => FirstActive(catalog, ids[hs[k]]).value)
  }

  /**
   * The re-ordered search result holds one active catalogue product for
   * every id that has one, each carrying its id, in the order of the ids,
   * and nothing for the ids without one.
   */
  lemma OrderedActiveCorrect(ids: seq<int>, catalog: seq<Product>)
    ensures var r := OrderedActive(ids, catalog);
      |r| <= |ids| && forall p :: p in r ==> p in catalog && IsActive(p) && p.id in ids
    ensures var r, hs := OrderedActive(ids, catalog), Hits(ids, catalog);
      forall k :: 0 <= k < |r| ==> r[k].id == ids[hs[k]]
    ensures forall id :: id in ids ==>
      ((exists p :: p in catalog && IsActive(p) && p.id == id) <==> exists p :: p in OrderedActive(ids, catalog) && p.id == id)
  {
    var r, hs := OrderedActive(ids, catalog), Hits(ids, catalog);
    HitsBound(ids, catalog);
    forall id | id in ids
      ensures (exists p :: p in catalog && IsActive(p) && p.id == id) <==> exists p :: p in r && p.id == id
    {
      var i :| 0 <= i < |ids| && ids[i] == id;
      if exists p :: p in catalog && IsActive(p) && p.id == id {
        var k :| 0 <= k < |hs| && hs[k] == i;
        assert r[k] in r && r[k].id == id;
      }
    }
  }

  /** There are no more hits than ids. */
  lemma {:induction false} HitsBound(ids: seq<int>, catalog: seq<Product>)
    ensures |Hits(ids, catalog)| <= |ids|
  {
    if ids != [] {
      HitsBound(ids[..|ids| - 1], catalog);
    }
  }

  /** The chunk table, or None when querying it raises an exception. */
  type ChunkQuery = Option<seq<ChunkRow>>

  /**
   * The `/` route, as a function of the request and of what its
   * collaborators return; `lookupFails` says whether the search path's
   * query of the active products with the found ids raises an exception.
   */
  function Home(provider: Provider, q: Option<string>, page: int, catalog: seq<Product>, lookupFails: bool,
                chunks: ChunkQuery, distance: Distance): Page
  {
    if !Truthy(q) then
      var listed := NewestFirst(Active(catalog));
      Page(ForPage(listed, page, PerPage), |listed|)
    else
      match Embed(provider, q.value, DefaultModel)
      case Failure(_) => EmptyPage
      case Success(e) =>
        match chunks
        case None => EmptyPage
        case Some(rows) =>
          var ids := SearchByEmbedding(rows, distance, e, SearchLimit, SearchMaxDistance);
          if ids == [] || lookupFails then EmptyPage
          else
            var ordered := OrderedActive(ids, catalog);
            Page(ForPage(ordered, page, PerPage), |ordered|)
  }

  /**
   * Without a query the home page is page `page` of the active products
   * listed newest first, 24 per page, counting them all, whatever the
   * search collaborators do.
   */
  lemma HomeBrowse(provider: Provider, q: Option<string>, page: int, catalog: seq<Product>, lookupFails: bool,
                   chunks: ChunkQuery, distance: Distance)
    requires !Truthy(q)
    ensures var r := Home(provider, q, page, catalog, lookupFails, chunks, distance);
      r.items == ForPage(NewestFirst(Active(catalog)), page, PerPage) &&
      r.total == |Active(catalog)| && |r.items| <= PerPage &&
      NewestFirstOrder(r.items) && forall p :: p in r.items ==> p in catalog && IsActive(p)
    ensures forall other: Provider, otherFails: bool, otherChunks: ChunkQuery, otherDistance: Distance ::
      Home(other, q, page, catalog, otherFails, otherChunks, otherDistance) ==
      Home(provider, q, page, catalog, lookupFails, chunks, distance)
  {
    var listed := NewestFirst(Active(catalog));
    NewestFirstCorrect(Active(catalog));
    assert |listed| == |Active(catalog)| by {
      assert |multiset(listed)| == |multiset(Active(catalog))|;
    }
    var items := ForPage(listed, page, PerPage);
    forall p | p in items ensures p in catalog && IsActive(p) {
      var j :| 0 <= j < |items| && items[j] == p;
      assert listed[PageOffset(page, PerPage) + j] in multiset(Active(catalog));
    }
  }

  /**
   * With a query, a failed embedding (a blank query among them), a failed
   * chunk query or a failed product query gives an empty page instead of
   * an error.
   */
  lemma HomeSearchFallback(provider: Provider, q: Option<string>, page: int, catalog: seq<Product>, lookupFails: bool,
                           chunks: ChunkQuery, distance: Distance)
    requires Truthy(q)
    ensures Embed(provider, q.value, DefaultModel).Failure? || chunks.None? || lookupFails ==>
      Home(provider, q, page, catalog, lookupFails, chunks, distance) == EmptyPage
    ensures IsPhpEmpty(Trim(q.value)) ==> Home(provider, q, page, catalog, lookupFails, chunks, distance) == EmptyPage
  {
    EmbedCases(provider, q.value, DefaultModel);
  }

  /**
   * A page of the re-ordered search result shows only active catalogue
   * products whose ids were found, and the result holds at most as many
   * products as ids.
   */
  lemma SearchPage(ids: seq<int>, catalog: seq<Product>, page: int)
    ensures |OrderedActive(ids, catalog)| <= |ids|
    ensures forall p :: p in ForPage(OrderedActive(ids, catalog), page, PerPage) ==> p in catalog && IsActive(p) && p.id in ids
  {
    OrderedActiveCorrect(ids, catalog);
    var ordered := OrderedActive(ids, catalog);
    forall p | p in ForPage(ordered, page, PerPage) ensures p in ordered {
      ForPageMember(ordered, page, PerPage, p);
    }
  }

  /** Every item of a page is an item of the listing. */
  lemma ForPageMember(items: seq<Product>, page: int, perPage: nat, p: Product)
    requires p in ForPage(items, page, perPage)
    ensures p in items
  {
    var page' := ForPage(items, page, perPage);
    var j :| 0 <= j < |page'| && page'[j] == p;
    assert items[PageOffset(page, perPage) + j] == p;
  }

  /**
   * Otherwise the page shows, in search order, the active products among
   * the ids semantic search returns with limit 20 and maximum distance 0.8,
   * and the total counts them all (an empty search result among them).
   */
  lemma HomeSearchFound(provider: Provider, q: Option<string>, page: int, catalog: seq<Product>, rows: seq<ChunkRow>,
                        distance: Distance)
    requires Truthy(q) && Embed(provider, q.value, DefaultModel).Success?
    ensures var ids := SearchByEmbedding(rows, distance, Embed(provider, q.value, DefaultModel).value, SearchLimit, SearchMaxDistance);
      var r := Home(provider, q, page, catalog, false, Some(rows), distance);
      r.total == |OrderedActive(ids, catalog)| && r.total <= SearchLimit &&
      r.items == ForPage(OrderedActive(ids, catalog), page, PerPage) &&
      forall p :: p in r.items ==> p in catalog && IsActive(p) && p.id in ids
  {
    var ids := SearchByEmbedding(rows, distance, Embed(provider, q.value, DefaultModel).value, SearchLimit, SearchMaxDistance);
    SearchByEmbeddingCorrect(rows, distance, Embed(provider, q.value, DefaultModel).value, SearchLimit, SearchMaxDistance);
    SearchPage(ids, catalog, page);
  }

  /** What the `/products/{product}` route answers. */
  datatype Response = Show(product: Product) | NotFound

  /** `abort_unless($product->status === 'active', 404)`. */
  function ShowProduct(p: Product): (r: Response)
    ensures r.Show? <==> IsActive(p)
    ensures r.Show? ==> r.product == p
  {
    if p.status == "active" then Show(p) else NotFound
  }
}
