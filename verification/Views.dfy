/** The views the catalog page derives on every render from the fetched products,
    the query string and the persisted state: the view mode, the visible products,
    the category buttons, the category filter, the liked count's inputs and the
    browse-history rows. Every one is a total function of its inputs. */
module Views {

  import opened Seqs
  import opened Strings
  import opened AppState

  /** A fetched product, reduced to the fields the derived views read. */
  datatype Product = Product(id: int, title: string, category: string)

  datatype ViewMode = CatalogView | CartView | LikedView | ProductView | HistoryView

  /** The mode the `view` query value selects (None: no such parameter, or no window).
      The detail view's value is "product"; anything unrecognised is the catalog. */
  function ParseView(view: Option<string>): (mode: ViewMode)
    ensures mode == CartView <==> view == Some("cart")
    ensures mode == LikedView <==> view == Some("liked")
    ensures mode == ProductView <==> view == Some("product")
    ensures mode == HistoryView <==> view == Some("history")
    ensures mode == CatalogView <==>
      view != Some("cart") && view != Some("liked") && view != Some("product") && view != Some("history")
  {
    if view == Some("cart") then CartView
    else if view == Some("liked") then LikedView
    else if view == Some("product") then ProductView
    else if view == Some("history") then HistoryView
    else CatalogView
  }

  /** The truthiness of the `id` query value: present and not the empty string. */
  predicate IdGiven(id: Option<string>)
  {
    id.Some? && id.value != ""
  }

  /** `p => String(p.id) === String(param)`. */
  function HasIdParam(param: string): Product -> bool
  {
    (p: Product) => DecimalString(p.id) == param
  }

  /** `p => cartIds.includes(p.id)`. */
  function InCart(cart: seq<int>): Product -> bool
  {
    (p: Product) => p.id in cart
  }

  /** `p => likedStatus[p.id] === "like"`. */
  function IsLiked(liked: LikeMap): Product -> bool
  {
    (p: Product) => StatusOf(liked, p.id) == Like
  }

  /** `p => browseHistory.some(h => String(h.id) === String(p.id))`, ids compared as integers. */
  function WasViewed(history: seq<HistoryEntry>): Product -> bool
  {
    (p: Product) => exists i :: 0 <= i < |history| && history[i].id == p.id
  }

  /** The products the current mode shows, before the category filter. A stored history
      that is not a list counts as empty, as the history update and the history rows
      already treat it (see VisibleProductsAsWritten). */
  function VisibleProducts(products: seq<Product>, mode: ViewMode, id: Option<string>,
                           cart: seq<int>, liked: LikeMap, history: StoredHistory): seq<Product>
  {
    if mode == ProductView && IdGiven(id) then Filter(products, HasIdParam(id.value))
    else if mode == CartView then Filter(products, InCart(cart))
    else if mode == LikedView then Filter(products, IsLiked(liked))
    else if mode == HistoryView then Filter(products, WasViewed(EntriesOf(history)))
    else products
  }

  /** The same chain as written, where the history branch calls `browseHistory.some`
      with no array check: on a stored value that is not a list the call throws a
      TypeError (None) as soon as there is a product to test. */
  function VisibleProductsAsWritten(products: seq<Product>, mode: ViewMode, id: Option<string>,
                                    cart: seq<int>, liked: LikeMap, history: StoredHistory): Option<seq<Product>>
  {
    if mode == ProductView && IdGiven(id) then Some(Filter(products, HasIdParam(id.value)))
    else if mode == CartView then Some(Filter(products, InCart(cart)))
    else if mode == LikedView then Some(Filter(products, IsLiked(liked)))
    else if mode == HistoryView then
      (if history.NotAList? then (if products == [] then Some([]) else None)
       else Some(Filter(products, WasViewed(history.entries))))
    else Some(products)
  }

  /** Each mode's visible list is an order-preserving subsequence of the products, and
      exactly the products that mode's test selects: those with the requested id, those
      in the cart, those liked, those in the history; the whole list in the catalog and
      in a product view without an id. */
  lemma VisibleProductsByMode(products: seq<Product>, mode: ViewMode, id: Option<string>,
                              cart: seq<int>, liked: LikeMap, history: StoredHistory)
    ensures var r := VisibleProducts(products, mode, id, cart, liked, history);
      && Subseq(r, products)
      && (mode == ProductView && IdGiven(id) ==> Selects(r, products, HasIdParam(id.value)))
      && (mode == ProductView && !IdGiven(id) ==> r == products)
      && (mode == CartView ==> Selects(r, products, InCart(cart)))
      && (mode == LikedView ==> Selects(r, products, IsLiked(liked)))
      && (mode == HistoryView ==> Selects(r, products, WasViewed(EntriesOf(history))))
      && (mode == CatalogView ==> r == products)
  {
    SubseqRefl(products);
    FilterSelects(products, InCart(cart));
    FilterSelects(products, IsLiked(liked));
    FilterSelects(products, WasViewed(EntriesOf(history)));
    if IdGiven(id) {
      FilterSelects(products, HasIdParam(id.value));
    }
  }

  /** A product view opened for id k shows the products whose id is k, and only those,
      because distinct integer ids have distinct numerals. */
  lemma ProductViewShowsId(products: seq<Product>, k: int, cart: seq<int>, liked: LikeMap, history: StoredHistory)
    ensures var r := VisibleProducts(products, ProductView, Some(DecimalString(k)), cart, liked, history);
      forall p :: p in r <==> p in products && p.id == k
  {
    FilterSelects(products, HasIdParam(DecimalString(k)));
    forall p: Product ensures HasIdParam(DecimalString(k))(p) <==> p.id == k {
      DecimalStringInjective(p.id, k);
    }
  }

  /** The as-written chain agrees with the model whenever the stored history is a list. */
  lemma AsWrittenAgreesOnLists(products: seq<Product>, mode: ViewMode, id: Option<string>,
                               cart: seq<int>, liked: LikeMap, history: StoredHistory)
    requires history.HistoryList?
    ensures VisibleProductsAsWritten(products, mode, id, cart, liked, history)
         == Some(VisibleProducts(products, mode, id, cart, liked, history))
  {
  }

  /** A history view over a stored value that is not a list, with at least one product
      loaded: the as-written chain throws, while the modelled list and the history rows of
      the same render are empty. */
  lemma UnguardedHistoryThrows(products: seq<Product>)
    requires products != []
    ensures VisibleProductsAsWritten(products, HistoryView, None, [], map[], NotAList).None?
    ensures VisibleProducts(products, HistoryView, None, [], map[], NotAList) == []
    ensures DisplayedHistoryEntries(NotAList, products, "All") == []
  {
    var r := Filter(products, WasViewed([]));
    FilterSelects(products, WasViewed([]));
    assert forall p: Product :: p !in r;
  }

  /** `p => selectedCategory === "All" ? true : p.category === selectedCategory`. */
  function InCategory(category: string): Product -> bool
  {
    (p: Product) => category == "All" || p.category == category
  }

  /** `displayedProducts`: the visible products narrowed to the selected category. */
  function DisplayedProducts(visible: seq<Product>, category: string): seq<Product>
  {
    Filter(visible, InCategory(category))
  }

  /** "All" shows every visible product; any other category keeps, in order, exactly the
      visible products of that category. */
  lemma DisplayedProductsSpec(visible: seq<Product>, category: string)
    ensures var r := DisplayedProducts(visible, category);
      && Selects(r, visible, InCategory(category))
      && (category == "All" ==> r == visible)
      && (category != "All" ==> forall i :: 0 <= i < |r| ==> r[i].category == category)
      && (forall p :: p in visible && p.category == category ==> p in r)
  {
    FilterSelects(visible, InCategory(category));
    if category == "All" {
      FilterAll(visible, InCategory(category));
    }
  }

  /** `products.map(p => p.category)`. */
  function CategoriesOf(products: seq<Product>): seq<string>
  {
    seq(|products|, i requires 0 <= i < |products| => products[i].category)
  }

  /** `["All", ...Array.from(new Set(categories)).sort()]`. */
  function Categories(products: seq<Product>): seq<string>
  {
    ["All"] + Sort(Distinct(CategoriesOf(products)))
  }

  /** The category buttons: "All", then the categories of the products, each once, in
      strictly ascending order. */
  lemma CategoriesSpec(products: seq<Product>)
    ensures var r := Categories(products);
      && |r| >= 1 && r[0] == "All"
      && (forall i, j :: 1 <= i < j < |r| ==> Below(r[i], r[j]))
      && (forall c :: c in r[1..] <==> exists i :: 0 <= i < |products| && products[i].category == c)
  {
    var d := Distinct(CategoriesOf(products));
    var s := Sort(d);
    NoDupByCounts(d);
    NoDupByCounts(s);
    SortedDistinctAscends(s);
    var r := Categories(products);
    assert r[1..] == s;
    forall c ensures c in s <==> exists i :: 0 <= i < |products| && products[i].category == c {
      assert c in s <==> c in multiset(s);
      assert c in d <==> c in multiset(d);
      if c in CategoriesOf(products) {
        var i :| 0 <= i < |products| && CategoriesOf(products)[i] == c;
        assert products[i].category == c;
      }
      if exists i :: 0 <= i < |products| && products[i].category == c {
        var i :| 0 <= i < |products| && products[i].category == c;
        assert CategoriesOf(products)[i] == c;
      }
    }
  }

  /** `products.find(p => String(p.id) === String(id))`, ids compared as integers. */
  function FindById(products: seq<Product>, id: int): (r: Option<Product>)
    ensures r.None? <==> forall i :: 0 <= i < |products| ==> products[i].id != id
    ensures r.Some? ==> exists i :: 0 <= i < |products| && products[i] == r.value
                          && r.value.id == id && forall j :: 0 <= j < i ==> products[j].id != id
  {
    if products == [] then None
    else if products[0].id == id then Some(products[0])
    else
      var r := FindById(products[1..], id);
      assert r.Some? ==> exists i :: 1 <= i < |products| && products[i] == r.value
                           && r.value.id == id && forall j :: 0 <= j < i ==> products[j].id != id by {
        if r.Some? {
          var i :| 0 <= i < |products[1..]| && products[1..][i] == r.value
                     && r.value.id == id && forall j :: 0 <= j < i ==> products[1..][j].id != id;
          assert products[i + 1] == r.value;
          forall j | 0 <= j < i + 1 ensures products[j].id != id {
            if j > 0 {
              assert products[j] == products[1..][j - 1];
            }
          }
        }
      }
      r
  }

  /** A history entry joined with its product. */
  datatype HistoryRow = HistoryRow(entry: HistoryEntry, product: Product)

  /** The map/filter(Boolean) part of `displayedHistoryEntries`: every entry paired with
      the first product of its id, entries whose id has no product dropped. */
  function Joined(entries: seq<HistoryEntry>, products: seq<Product>): seq<HistoryRow>
  {
    if entries == [] then []
    else
      var rest := Joined(entries[1..], products);
      match FindById(products, entries[0].id)
      case Some(p) => [HistoryRow(entries[0], p)] + rest
      case None => rest
  }

  /** The history entries of the rows, in order. */
  function RowEntries(rows: seq<HistoryRow>): (entries: seq<HistoryEntry>)
    ensures |entries| == |rows|
    ensures forall i :: 0 <= i < |rows| ==> entries[i] == rows[i].entry
  {
    if rows == [] then [] else [rows[0].entry] + RowEntries(rows[1..])
  }

  /** The entry test of the join: some product carries the entry's id. */
  function Listed(products: seq<Product>): HistoryEntry -> bool
  {
    (e: HistoryEntry) => exists i :: 0 <= i < |products| && products[i].id == e.id
  }

  /** The join keeps the history order and drops exactly the entries whose id matches no
      product; each kept entry is paired with the first product of its id. */
  lemma {:induction false} JoinedSpec(entries: seq<HistoryEntry>, products: seq<Product>)
    ensures var rows := Joined(entries, products);
      && RowEntries(rows) == Filter(entries, Listed(products))
      && forall i :: 0 <= i < |rows| ==> FindById(products, rows[i].entry.id) == Some(rows[i].product)
  {
    if entries != [] {
      JoinedSpec(entries[1..], products);
      var rest := Joined(entries[1..], products);
      var rows := Joined(entries, products);
      var e := entries[0];
      match FindById(products, e.id)
      case Some(p) => {
        assert rows == [HistoryRow(e, p)] + rest;
        assert Listed(products)(e);
        assert rows[1..] == rest;
        forall i | 0 <= i < |rows| ensures FindById(products, rows[i].entry.id) == Some(rows[i].product) {
          if i > 0 {
            assert rows[i] == rest[i - 1];
          }
        }
      }
      case None => {
        assert !Listed(products)(e);
      }
    }
  }

  /** `entry => selectedCategory === "All" ? true : entry.product.category === selectedCategory`. */
  function RowInCategory(category: string): HistoryRow -> bool
  {
    (row: HistoryRow) => category == "All" || row.product.category == category
  }

  /** `displayedHistoryEntries`: the history (empty when not a list) joined with the
      products, then narrowed to the selected category. */
  function DisplayedHistoryEntries(history: StoredHistory, products: seq<Product>, category: string): seq<HistoryRow>
  {
    Filter(Joined(EntriesOf(history), products), RowInCategory(category))
  }

  /** The history rows are the joined rows of the category, in history order, never more
      than the history has entries; under "All" they are all the joined rows. */
  lemma DisplayedHistorySpec(history: StoredHistory, products: seq<Product>, category: string)
    ensures var joined := Joined(EntriesOf(history), products);
      var r := DisplayedHistoryEntries(history, products, category);
      && |r| <= |EntriesOf(history)|
      && Selects(r, joined, RowInCategory(category))
      && (category == "All" ==> r == joined)
      && (category != "All" ==> forall i :: 0 <= i < |r| ==> r[i].product.category == category)
      && (forall i :: 0 <= i < |r| ==> FindById(products, r[i].entry.id) == Some(r[i].product))
  {
    var entries := EntriesOf(history);
    var joined := Joined(entries, products);
    var f := RowInCategory(category);
    var r := Filter(joined, f);
    assert |r| <= |entries| by {
      assert |joined| == |RowEntries(joined)| && RowEntries(joined) == Filter(entries, Listed(products)) by {
        JoinedSpec(entries, products);
      }
    }
    assert Selects(r, joined, f) && forall x :: x in r <==> x in joined && f(x) by {
      FilterSelects(joined, f);
    }
    if category == "All" {
      FilterAll(joined, f);
    }
    forall i | 0 <= i < |r| ensures FindById(products, r[i].entry.id) == Some(r[i].product) {
      assert r[i] in joined;
      var j :| 0 <= j < |joined| && joined[j] == r[i];
      JoinedSpec(entries, products);
    }
  }
}
