/** The persisted client state of the catalog page and the updates the page's
    setters apply to it: the like/dislike map, the cart id list and the browse
    history, with the 200-entry history cap. */
module AppState {

  import opened Seqs

  /** The value one id's slot in the like map holds: "like", "dislike", or the
      `undefined` a repeated toggle writes. An id with no slot reads as Unset too. */
  datatype Status = Like | Dislike | Unset

  type LikeMap = map<int, Status>

  function StatusOf(m: LikeMap, id: int): Status
  {
    if id in m then m[id] else Unset
  }

  /** The update of `handleLike` (mark Like) and `handleDislike` (mark Dislike):
      the id's slot gets the mark, or is cleared when it already holds the mark. */
  function Toggled(m: LikeMap, id: int, mark: Status): (r: LikeMap)
    requires mark != Unset
    ensures r.Keys == m.Keys + {id}
    ensures StatusOf(r, id) == (if StatusOf(m, id) == mark then Unset else mark)
    ensures forall k :: k in m && k != id ==> r[k] == m[k]
  {
    m[id := if StatusOf(m, id) == mark then Unset else mark]
  }

  /** The ids whose slot holds "like". */
  function LikedIds(m: LikeMap): set<int>
  {
    set k | k in m && m[k] == Like
  }

  /** `Object.values(likedStatus).filter(s => s === "like").length`: one per slot holding Like. */
  function LikedCount(m: LikeMap): nat
  {
    |LikedIds(m)|
  }

  /** `Object.values(m)` for an enumeration ks of m's keys: one value per key, in that order. */
  function ValuesAt(m: LikeMap, ks: seq<int>): (vs: seq<Status>)
    requires forall i :: 0 <= i < |ks| ==> ks[i] in m
    ensures |vs| == |ks|
    ensures forall i :: 0 <= i < |ks| ==> vs[i] == m[ks[i]]
  {
    if ks == [] then [] else [m[ks[0]]] + ValuesAt(m, ks[1..])
  }

  /** The test `status => status === "like"`. */
  function IsLikeValue(v: Status): bool
  {
    v == Like
  }

  /** The keys among ks whose slot holds Like. */
  ghost function LikedAmong(m: LikeMap, ks: seq<int>): set<int>
  {
    set k | k in ks && k in m && m[k] == Like
  }

  lemma LikedAmongCons(m: LikeMap, k0: int, rest: seq<int>)
    ensures LikedAmong(m, [k0] + rest) ==
      LikedAmong(m, rest) + (if k0 in m && m[k0] == Like then {k0} else {})
  {
    forall k ensures k in [k0] + rest <==> k == k0 || k in rest {
      assert k in [k0] + rest <==> k in multiset([k0] + rest);
    }
  }

  /** Over distinct keys, the "like" values number as many as the keys that hold Like. */
  lemma {:induction false} LikeValuesCounted(m: LikeMap, ks: seq<int>)
    requires NoDup(ks)
    requires forall i :: 0 <= i < |ks| ==> ks[i] in m
    ensures |Filter(ValuesAt(m, ks), IsLikeValue)| == |LikedAmong(m, ks)|
  {
    if ks != [] {
      var k0, rest := ks[0], ks[1..];
      var vs := ValuesAt(m, ks);
      assert vs[1..] == ValuesAt(m, rest);
      assert NoDup(rest) && k0 !in rest by {
        forall i, j | 0 <= i < j < |rest| ensures rest[i] != rest[j] {
          assert rest[i] == ks[i + 1] && rest[j] == ks[j + 1];
        }
        forall j | 0 <= j < |rest| ensures rest[j] != k0 {
          assert rest[j] == ks[j + 1];
        }
      }
      LikeValuesCounted(m, rest);
      assert ks == [k0] + rest;
      LikedAmongCons(m, k0, rest);
      assert k0 !in LikedAmong(m, rest);
    }
  }

  /** `likedCount`: listing the like map's values in any order of its keys, each key
      once, and counting those equal to "like" gives LikedCount. */
  lemma LikedCountIsValueCount(m: LikeMap, ks: seq<int>)
    requires NoDup(ks)
    requires forall i :: 0 <= i < |ks| ==> ks[i] in m
    requires forall k :: k in m ==> k in ks
    ensures |Filter(ValuesAt(m, ks), IsLikeValue)| == LikedCount(m)
  {
    LikeValuesCounted(m, ks);
    forall k ensures k in LikedAmong(m, ks) <==> k in LikedIds(m) {
      if k in m {
        assert k in ks;
      }
    }
    assert LikedAmong(m, ks) == LikedIds(m);
  }

  /** Toggling the same mark twice restores the slot unless it held the other mark,
      which the first toggle overwrote: from "dislike", liking twice ends unset. */
  lemma ToggleTwice(m: LikeMap, id: int, mark: Status)
    requires mark != Unset
    ensures var twice := Toggled(Toggled(m, id, mark), id, mark);
      && StatusOf(twice, id) == (if StatusOf(m, id) == mark || StatusOf(m, id) == Unset then StatusOf(m, id) else Unset)
      && forall k :: k != id ==> StatusOf(twice, k) == StatusOf(m, k)
  {
  }

  /** Liking then disliking always leaves the slot at "dislike": one slot per id makes
      the two marks exclusive. */
  lemma LikeThenDislike(m: LikeMap, id: int)
    ensures StatusOf(Toggled(Toggled(m, id, Like), id, Dislike), id) == Dislike
  {
  }

  /** A toggle adds the id to the liked ids when it sets Like and removes it otherwise. */
  lemma LikedIdsAfterToggle(m: LikeMap, id: int, mark: Status)
    requires mark != Unset
    ensures LikedIds(Toggled(m, id, mark)) ==
      if StatusOf(Toggled(m, id, mark), id) == Like then LikedIds(m) + {id} else LikedIds(m) - {id}
  {
    var r := Toggled(m, id, mark);
    forall k ensures k in LikedIds(r) <==> k in (if StatusOf(r, id) == Like then LikedIds(m) + {id} else LikedIds(m) - {id}) {
      if k != id {
        assert k in r <==> k in m;
      }
    }
  }

  /** How a toggle moves the liked count: it gains one when Like is set, loses one when
      a Like is cleared or overwritten by Dislike, and is otherwise unchanged. */
  lemma LikedCountAfterToggle(m: LikeMap, id: int, mark: Status)
    requires mark != Unset
    ensures LikedCount(Toggled(m, id, mark)) ==
      if StatusOf(m, id) == Like then LikedCount(m) - 1
      else if mark == Like then LikedCount(m) + 1
      else LikedCount(m)
  {
    LikedIdsAfterToggle(m, id, mark);
    assert id in LikedIds(m) <==> StatusOf(m, id) == Like;
  }

  /** The test `id => id !== x`. */
  function Differs(x: int): int -> bool
  {
    (y: int) => y != x
  }

  /** The update of `toggleCart`: every occurrence of a listed id is removed,
      an unlisted id is appended. */
  function CartToggled(cart: seq<int>, id: int): (r: seq<int>)
  {
    if id in cart then Filter(cart, Differs(id)) else cart + [id]
  }

  /** toggleCart flips the id's membership and no other: a listed id leaves with all its
      occurrences and the rest keep their order and multiplicity; an unlisted one goes last. */
  lemma CartToggledSpec(cart: seq<int>, id: int)
    ensures var r := CartToggled(cart, id);
      && (forall x :: x in r <==> if x == id then id !in cart else x in cart)
      && (id in cart ==> Selects(r, cart, Differs(id)))
      && (id !in cart ==> r == cart + [id])
  {
    FilterSelects(cart, Differs(id));
  }

  /** Toggling an unlisted id twice gives back the original list. */
  lemma CartToggleTwiceAbsent(cart: seq<int>, id: int)
    requires id !in cart
    ensures CartToggled(CartToggled(cart, id), id) == cart
  {
    var once := cart + [id];
    assert id in once;
    FilterAppend(cart, [id], Differs(id));
    FilterAll(cart, Differs(id));
    assert Filter([id], Differs(id)) == [];
  }

  /** Toggling any id twice restores membership (duplicates of a listed id are merged). */
  lemma CartToggleTwiceMembers(cart: seq<int>, id: int)
    ensures forall x :: x in CartToggled(CartToggled(cart, id), id) <==> x in cart
  {
    CartToggledSpec(cart, id);
    CartToggledSpec(CartToggled(cart, id), id);
  }

  /** toggleCart keeps a duplicate-free cart duplicate-free. */
  lemma CartToggledNoDup(cart: seq<int>, id: int)
    requires NoDup(cart)
    ensures NoDup(CartToggled(cart, id))
  {
    var r := CartToggled(cart, id);
    if id in cart {
      FilterSelects(cart, Differs(id));
      NoDupByCounts(cart);
      NoDupByCounts(r);
    }
  }

  /** The scenario of an empty cart toggled twice with id 42. */
  lemma CartScenario()
    ensures CartToggled([], 42) == [42]
    ensures CartToggled([42], 42) == []
  {
    assert Filter([42], Differs(42)) == [];
  }

  const HistoryCap: nat := 200

  datatype HistoryEntry = HistoryEntry(id: int, ts: int)

  /** What the stored history holds: a list of entries, or a value that is not an
      array (the source guards against it with `Array.isArray`). */
  datatype StoredHistory = HistoryList(entries: seq<HistoryEntry>) | NotAList

  /** `Array.isArray(h) ? h : []`. */
  function EntriesOf(h: StoredHistory): seq<HistoryEntry>
  {
    if h.HistoryList? then h.entries else []
  }

  function Min(a: int, b: int): int
  {
    if a < b then a else b
  }

  /** The history update of `openProductTab`: the new entry in front of the previous
      entries (none when they were not a list), cut to the first 200. */
  function Recorded(h: StoredHistory, id: int, ts: int): (r: seq<HistoryEntry>)
    ensures |r| == Min(|EntriesOf(h)| + 1, HistoryCap)
    ensures r[0] == HistoryEntry(id, ts)
    ensures forall i :: 1 <= i < |r| ==> r[i] == EntriesOf(h)[i - 1]
  {
    var next := [HistoryEntry(id, ts)] + EntriesOf(h);
    next[..Min(|next|, HistoryCap)]
  }

  /** The history after the views are recorded one after another, oldest view first. */
  ghost function RecordAll(entries: seq<HistoryEntry>, views: seq<HistoryEntry>): seq<HistoryEntry>
  {
    if views == [] then entries
    else
      var last := views[|views| - 1];
      Recorded(HistoryList(RecordAll(entries, views[..|views| - 1])), last.id, last.ts)
  }

  /** After a run of views the history lists the newest view first, then the older views
      and the entries before them, newest to oldest, cut at 200. */
  lemma {:induction false} RecordAllNewestFirst(entries: seq<HistoryEntry>, views: seq<HistoryEntry>)
    requires |views| > 0 || |entries| <= HistoryCap
    ensures var r := RecordAll(entries, views);
      && |r| == Min(|views| + |entries|, HistoryCap)
      && forall i :: 0 <= i < |r| ==>
           r[i] == if i < |views| then views[|views| - 1 - i] else entries[i - |views|]
  {
    if views != [] {
      var init, last := views[..|views| - 1], views[|views| - 1];
      var a := RecordAll(entries, init);
      var r := RecordAll(entries, views);
      assert r == Recorded(HistoryList(a), last.id, last.ts);
      if init == [] {
        assert a == entries;
      } else {
        RecordAllNewestFirst(entries, init);
        forall i | 1 <= i < |r|
          ensures r[i] == if i < |views| then views[|views| - 1 - i] else entries[i - |views|]
        {
          assert r[i] == a[i - 1];
          if i < |views| {
            assert init[|init| - 1 - (i - 1)] == views[|views| - 1 - i];
          }
        }
      }
    }
  }

  /** Viewing products 201 times from an empty history leaves exactly 200 entries,
      the most recent first and the first view dropped. */
  lemma TwoHundredOneViews(views: seq<HistoryEntry>)
    requires |views| == 201
    ensures var r := RecordAll([], views);
      && |r| == HistoryCap
      && r[0] == views[200]
      && r[199] == views[1]
      && (views[0] in r ==> views[0] in views[1..])
  {
    RecordAllNewestFirst([], views);
    var r := RecordAll([], views);
    if views[0] in r {
      var i :| 0 <= i < |r| && r[i] == views[0];
      assert views[200 - i] == views[1..][199 - i];
    }
  }
}
