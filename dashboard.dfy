/** The dashboard's listing and the handlers of App.tsx that change what it
    shows: the sort column and direction, the favourite products and the
    expanded rows. */
module Dashboard {
  import opened StockTypes
  import opened Aggregation
  import opened Ordering

  // ---------------------------------------------------------------------
  // The listing
  // ---------------------------------------------------------------------

  /** Every product derived for the window starting at `start`, in the order received. */
  function DeriveAll(skus: seq<RawSku>, start: int): (r: seq<Sku>)
    ensures |r| == |skus|
    ensures forall i :: 0 <= i < |r| ==> r[i] == DeriveSku(skus[i], start)
    ensures forall i :: 0 <= i < |r| ==>
              r[i].id == skus[i].id && r[i].name == skus[i].name && |r[i].variations| == |skus[i].variations|
  {
    seq(|skus|, i requires 0 <= i < |skus| => DeriveSku(skus[i], start))
  }

  /** The listing the dashboard shows: every product derived for the window,
      then sorted in place with favourites first and the chosen column after.
      The ghost `order` gives, for each listed product, its position in the
      order received; products the comparator ties keep that order. */
  method ProcessedData(skus: seq<RawSku>, start: int, favorites: seq<string>, config: SortConfig)
    returns (r: seq<Sku>, ghost order: seq<int>)
    ensures multiset(r) == multiset(DeriveAll(skus, start))
    ensures Tracks(r, DeriveAll(skus, start), order) && Distinct(order)
    ensures StableUpTo(r, order, |r|, favorites, config)
    ensures |r| == |skus|
    ensures Sorted(r, favorites, config)
    ensures forall i, j :: 0 <= i < j < |r| && r[j].id in favorites ==> r[i].id in favorites
    ensures forall i, j :: 0 <= i < j < |r| && (r[i].id in favorites <==> r[j].id in favorites) ==>
              if config.direction == Asc then KeyAtMost(r[i], r[j], config.key)
              else KeyAtMost(r[j], r[i], config.key)
  {
    var data: seq<Sku> := [];
    var i := 0;
    while i < |skus|
      invariant 0 <= i <= |skus|
      invariant data == DeriveAll(skus[..i], start)
    {
      var s := ProcessSku(skus[i], start);
      data := data + [s];
      i := i + 1;
    }
    assert skus[..i] == skus;
    var a := new Sku[|data|](k requires 0 <= k < |data| => data[k]);
    assert a[..] == data;
    order := SortSkus(a, favorites, config);
    r := a[..];
    assert |multiset(r)| == |multiset(data)|;
    SortedFavoritesFirst(r, favorites, config);
    SortedByColumn(r, favorites, config);
  }

  // ---------------------------------------------------------------------
  // Sort column and direction
  // ---------------------------------------------------------------------

  /** A click on a column header: the same column while ascending turns to
      descending; every other click sorts that column ascending. */
  function NextSortConfig(prev: SortConfig, key: SortKey): (c: SortConfig)
    ensures c.key == key
    ensures c.direction == Desc <==> prev.key == key && prev.direction == Asc
  {
    SortConfig(key, if prev.key == key && prev.direction == Asc then Desc else Asc)
  }

  /** Clicking the same header repeatedly alternates the direction. */
  lemma RepeatedClicksAlternate(prev: SortConfig, key: SortKey)
    ensures NextSortConfig(NextSortConfig(prev, key), key).direction != NextSortConfig(prev, key).direction
    ensures NextSortConfig(NextSortConfig(NextSortConfig(prev, key), key), key) == NextSortConfig(prev, key)
  {
  }

  // ---------------------------------------------------------------------
  // Favourites
  // ---------------------------------------------------------------------

  /** The list without any occurrence of `id`, in the original order. */
  function RemoveId(favorites: seq<string>, id: string): (r: seq<string>)
    ensures |r| <= |favorites|
    ensures forall x :: x in r <==> x in favorites && x != id
  {
    if favorites == [] then []
    else if favorites[0] == id then RemoveId(favorites[1..], id)
    else [favorites[0]] + RemoveId(favorites[1..], id)
  }

  /** A click on a product's star: a favourite is dropped (every occurrence),
      any other product is appended. */
  function ToggleFavorite(favorites: seq<string>, id: string): (r: seq<string>)
    ensures id in r <==> id !in favorites
    ensures forall x :: x != id ==> (x in r <==> x in favorites)
  {
    if id in favorites then RemoveId(favorites, id) else favorites + [id]
  }

  predicate NoDuplicates(s: seq<string>) {
    forall i, j :: 0 <= i < j < |s| ==> s[i] != s[j]
  }

  lemma {:induction false} RemoveIdKeepsNoDuplicates(favorites: seq<string>, id: string)
    requires NoDuplicates(favorites)
    ensures NoDuplicates(RemoveId(favorites, id))
    decreases |favorites|
  {
    if favorites != [] {
      var rest := favorites[1..];
      assert NoDuplicates(rest) by {
        forall i, j | 0 <= i < j < |rest| ensures rest[i] != rest[j] {
          assert rest[i] == favorites[i + 1] && rest[j] == favorites[j + 1];
        }
      }
      RemoveIdKeepsNoDuplicates(rest, id);
      assert favorites[0] !in rest by {
        forall k | 0 <= k < |rest| ensures rest[k] != favorites[0] {
          assert rest[k] == favorites[k + 1];
        }
      }
    }
  }

  /** Toggling a favourite never introduces a duplicate id. */
  lemma ToggleFavoriteKeepsNoDuplicates(favorites: seq<string>, id: string)
    requires NoDuplicates(favorites)
    ensures NoDuplicates(ToggleFavorite(favorites, id))
  {
    if id in favorites {
      RemoveIdKeepsNoDuplicates(favorites, id);
    }
  }

  lemma {:induction false} RemoveAppended(favorites: seq<string>, id: string)
    requires id !in favorites
    ensures RemoveId(favorites + [id], id) == favorites
    decreases |favorites|
  {
    if favorites == [] {
      assert [] + [id] == [id];
    } else {
      assert (favorites + [id])[1..] == favorites[1..] + [id];
      RemoveAppended(favorites[1..], id);
    }
  }

  /** Toggling an id that is not a favourite twice gives back the same list. */
  lemma ToggleFavoriteTwiceRestoresList(favorites: seq<string>, id: string)
    requires id !in favorites
    ensures ToggleFavorite(ToggleFavorite(favorites, id), id) == favorites
  {
    RemoveAppended(favorites, id);
  }

  /** Toggling any id twice gives back the same set of favourite ids; an id
      that was a favourite moves to the end of the list. */
  lemma ToggleFavoriteTwiceRestoresIds(favorites: seq<string>, id: string)
    ensures forall x :: x in ToggleFavorite(ToggleFavorite(favorites, id), id) <==> x in favorites
    ensures id in favorites ==>
      ToggleFavorite(ToggleFavorite(favorites, id), id) == RemoveId(favorites, id) + [id]
  {
  }

  lemma {:induction false} RemoveIdAppend(a: seq<string>, b: seq<string>, id: string)
    ensures RemoveId(a + b, id) == RemoveId(a, id) + RemoveId(b, id)
    decreases |a|
  {
    if a != [] {
      assert (a + b)[0] == a[0] && (a + b)[1..] == a[1..] + b;
      RemoveIdAppend(a[1..], b, id);
    } else {
      assert a + b == b;
    }
  }

  lemma {:induction false} RemoveAbsent(favorites: seq<string>, id: string)
    requires id !in favorites
    ensures RemoveId(favorites, id) == favorites
    decreases |favorites|
  {
    if favorites != [] {
      RemoveAbsent(favorites[1..], id);
      assert favorites == [favorites[0]] + favorites[1..];
    }
  }

  /** Toggling twice gives back exactly the same list if and only if the id
      was not a favourite, or occurred once, as the last element. */
  lemma ToggleFavoriteTwiceRestoresListIff(favorites: seq<string>, id: string)
    ensures ToggleFavorite(ToggleFavorite(favorites, id), id) == favorites <==>
              id !in favorites ||
              (favorites[|favorites| - 1] == id && id !in favorites[..|favorites| - 1])
  {
    if id !in favorites {
      ToggleFavoriteTwiceRestoresList(favorites, id);
    } else {
      var n := |favorites| - 1;
      var r := RemoveId(favorites, id);
      assert ToggleFavorite(ToggleFavorite(favorites, id), id) == r + [id];
      if favorites[n] == id && id !in favorites[..n] {
        assert favorites == favorites[..n] + [id];
        RemoveIdAppend(favorites[..n], [id], id);
        RemoveAbsent(favorites[..n], id);
        assert RemoveId([id], id) == [];
      }
    }
  }

  /** Unfavouriting the first of two favourites and favouriting it again reorders the list. */
  lemma ToggleFavoriteTwiceReorders()
    ensures ToggleFavorite(ToggleFavorite(["a", "b"], "a"), "a") == ["b", "a"]
  {
    assert RemoveId(["a", "b"], "a") == ["b"];
  }

  // ---------------------------------------------------------------------
  // Expanded rows
  // ---------------------------------------------------------------------

  /** A click on a product row: a copy of the expanded set with that product
      removed if it was expanded and added otherwise. */
  function ToggleExpanded(expanded: set<string>, id: string): (r: set<string>)
    ensures id in r <==> id !in expanded
    ensures r - {id} == expanded - {id}
  {
    if id in expanded then expanded - {id} else expanded + {id}
  }

  /** Toggling the same row twice gives back the original set. */
  lemma ToggleExpandedTwice(expanded: set<string>, id: string)
    ensures ToggleExpanded(ToggleExpanded(expanded, id), id) == expanded
  {
  }
}
