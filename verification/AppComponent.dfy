/** The state the `App` component holds and the handlers that change it. Each field
    is one `useState` slot; each method is one handler, applied at once (the setter's
    updater function run on the current value). */
module AppComponent {

  import opened Seqs
  import opened AppState
  import opened Views

  class App {
    var products: seq<Product>
    var selectedCategory: string
    var likedStatus: LikeMap
    var cartIds: seq<int>
    var browseHistory: StoredHistory

    /** The first render with nothing in storage: no products yet, "All" selected,
        no likes, an empty cart and an empty history. */
    constructor ()
      ensures products == [] && selectedCategory == "All"
      ensures likedStatus == map[] && cartIds == [] && browseHistory == HistoryList([])
    {
      products := [];
      selectedCategory := "All";
      likedStatus := map[];
      cartIds := [];
      browseHistory := HistoryList([]);
    }

    /** The first render with stored values already parsed (the parsing is not modelled). */
    constructor Restore(liked: LikeMap, cart: seq<int>, history: StoredHistory)
      ensures products == [] && selectedCategory == "All"
      ensures likedStatus == liked && cartIds == cart && browseHistory == history
    {
      products := [];
      selectedCategory := "All";
      likedStatus := liked;
      cartIds := cart;
      browseHistory := history;
    }

    /** `setProducts(data)` once the fetch has delivered the product list. */
    method SetProducts(data: seq<Product>)
      modifies this`products
      ensures products == data
    {
      products := data;
    }

    /** A category button's `setSelectedCategory(category)`. */
    method SelectCategory(category: string)
      modifies this`selectedCategory
      ensures selectedCategory == category
    {
      selectedCategory := category;
    }

    /** `handleLike`: the id's slot becomes "like", or is cleared if it was "like";
        no other slot changes and the liked count moves accordingly. */
    method HandleLike(id: int)
      modifies this`likedStatus
      ensures likedStatus == Toggled(old(likedStatus), id, Like)
      ensures forall k :: k != id ==> StatusOf(likedStatus, k) == StatusOf(old(likedStatus), k)
      ensures LikedCount(likedStatus) ==
        if StatusOf(old(likedStatus), id) == Like then LikedCount(old(likedStatus)) - 1
        else LikedCount(old(likedStatus)) + 1
    {
      LikedCountAfterToggle(likedStatus, id, Like);
      likedStatus := Toggled(likedStatus, id, Like);
    }

    /** `handleDislike`: the id's slot becomes "dislike", or is cleared if it was "dislike";
        a Like it overwrites leaves the liked count. */
    method HandleDislike(id: int)
      modifies this`likedStatus
      ensures likedStatus == Toggled(old(likedStatus), id, Dislike)
      ensures forall k :: k != id ==> StatusOf(likedStatus, k) == StatusOf(old(likedStatus), k)
      ensures LikedCount(likedStatus) ==
        if StatusOf(old(likedStatus), id) == Like then LikedCount(old(likedStatus)) - 1
        else LikedCount(old(likedStatus))
    {
      LikedCountAfterToggle(likedStatus, id, Dislike);
      likedStatus := Toggled(likedStatus, id, Dislike);
    }

    /** `toggleCart`: the id leaves the cart (every occurrence) if it is in it and is
        appended otherwise; a cart without duplicates stays without them. */
    method ToggleCart(id: int)
      modifies this`cartIds
      ensures cartIds == CartToggled(old(cartIds), id)
      ensures forall x :: x in cartIds <==> if x == id then id !in old(cartIds) else x in old(cartIds)
      ensures NoDup(old(cartIds)) ==> NoDup(cartIds)
    {
      CartToggledSpec(cartIds, id);
      if NoDup(cartIds) {
        CartToggledNoDup(cartIds, id);
      }
      cartIds := CartToggled(cartIds, id);
    }

    /** The history update of `openProductTab`, with `now` standing for `Date.now()`:
        the new entry first, then the previous entries, at most 200 in all. */
    method OpenProductTab(id: int, now: int)
      modifies this`browseHistory
      ensures browseHistory == HistoryList(Recorded(old(browseHistory), id, now))
      ensures 1 <= |browseHistory.entries| <= HistoryCap
      ensures browseHistory.entries[0] == HistoryEntry(id, now)
    {
      browseHistory := HistoryList(Recorded(browseHistory, id, now));
    }

    /** `clearHistory`: the history becomes the empty list. */
    method ClearHistory()
      modifies this`browseHistory
      ensures browseHistory == HistoryList([])
    {
      browseHistory := HistoryList([]);
    }
  }
}
