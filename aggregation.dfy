/** The derivation of the displayed figures from the raw stock history
    (the `processedData` computation of App.tsx, before sorting).

    For every variation only the readings taken at or after the start of the
    analysed window are kept. The last kept reading gives the current stock,
    the first kept reading the opening stock, and their difference the
    variation over the window; an empty window reads as a stock of zero at
    both ends. Each product then carries the sums of its variations' current
    stock and variation. The window start is a parameter: computing it from
    the clock is not part of this model. */
module Aggregation {
  import opened StockTypes

  // ---------------------------------------------------------------------
  // The window filter
  // ---------------------------------------------------------------------

  /** The readings whose timestamp is at or after `start`, in their original order. */
  function InWindow(h: seq<RawHistoryEntry>, start: int): (w: seq<RawHistoryEntry>)
    ensures |w| <= |h|
    ensures forall k :: 0 <= k < |w| ==> w[k].timestamp >= start && w[k] in h
    decreases |h|
  {
    if h == [] then []
    else
      var rest := InWindow(h[..|h| - 1], start);
      assert forall e :: e in h[..|h| - 1] ==> e in h;
      if h[|h| - 1].timestamp >= start then rest + [h[|h| - 1]] else rest
  }

  /** Reference definition of the window: the positions of `h` whose reading
      is at or after `start`, in increasing order. */
  ghost function WindowIndices(h: seq<RawHistoryEntry>, start: int): (ix: seq<int>)
    ensures forall k :: 0 <= k < |ix| ==> 0 <= ix[k] < |h|
    ensures forall k, l :: 0 <= k < l < |ix| ==> ix[k] < ix[l]
    ensures forall i :: 0 <= i < |h| ==> (i in ix <==> h[i].timestamp >= start)
    decreases |h|
  {
    if h == [] then []
    else
      var rest := WindowIndices(h[..|h| - 1], start);
      assert forall i :: 0 <= i < |h| - 1 ==> h[..|h| - 1][i] == h[i];
      if h[|h| - 1].timestamp >= start then rest + [|h| - 1] else rest
  }

  /** The window is exactly the subsequence of the readings at or after
      `start`: its k-th element is the reading at the k-th such position. */
  lemma {:induction false} InWindowIsOrderedSubsequence(h: seq<RawHistoryEntry>, start: int)
    ensures |InWindow(h, start)| == |WindowIndices(h, start)|
    ensures forall k :: 0 <= k < |WindowIndices(h, start)| ==>
              InWindow(h, start)[k] == h[WindowIndices(h, start)[k]]
    decreases |h|
  {
    if h != [] {
      var n := |h| - 1;
      var p := h[..n];
      InWindowIsOrderedSubsequence(p, start);
      var w, ix := InWindow(p, start), WindowIndices(p, start);
      forall k | 0 <= k < |ix| ensures w[k] == h[ix[k]] {
        assert p[ix[k]] == h[ix[k]];
      }
      if h[n].timestamp >= start {
        assert InWindow(h, start) == w + [h[n]];
        assert WindowIndices(h, start) == ix + [n];
      } else {
        assert InWindow(h, start) == w;
        assert WindowIndices(h, start) == ix;
      }
    }
  }

  /** The window is empty exactly when no reading is at or after `start`. */
  lemma {:induction false} InWindowEmpty(h: seq<RawHistoryEntry>, start: int)
    ensures InWindow(h, start) == [] <==> forall i :: 0 <= i < |h| ==> h[i].timestamp < start
  {
    InWindowIsOrderedSubsequence(h, start);
    var ix := WindowIndices(h, start);
    if InWindow(h, start) == [] {
      forall i | 0 <= i < |h| ensures h[i].timestamp < start {
        assert i !in ix;
      }
    } else {
      assert ix[0] in ix;
    }
  }

  /** When `h[i]` is the last reading (by position) at or after `start`, it
      closes the window. */
  lemma {:induction false} LastReadingClosesWindow(h: seq<RawHistoryEntry>, start: int, i: int)
    requires 0 <= i < |h| && h[i].timestamp >= start
    requires forall j :: i < j < |h| ==> h[j].timestamp < start
    ensures |InWindow(h, start)| > 0 && InWindow(h, start)[|InWindow(h, start)| - 1] == h[i]
    decreases |h|
  {
    if i < |h| - 1 {
      var p := h[..|h| - 1];
      assert p[i] == h[i];
      LastReadingClosesWindow(p, start, i);
    }
  }

  /** When `h[i]` is the first reading (by position) at or after `start`, it
      opens the window. */
  lemma FirstReadingOpensWindow(h: seq<RawHistoryEntry>, start: int, i: int)
    requires 0 <= i < |h| && h[i].timestamp >= start
    requires forall j :: 0 <= j < i ==> h[j].timestamp < start
    ensures |InWindow(h, start)| > 0 && InWindow(h, start)[0] == h[i]
  {
    InWindowIsOrderedSubsequence(h, start);
    var ix := WindowIndices(h, start);
    assert i in ix;
    assert ix[0] in ix;
    assert ix[0] == i;
  }

  // ---------------------------------------------------------------------
  // One variation
  // ---------------------------------------------------------------------

  /** A variation restricted to the window starting at `start`: `latest` is
      the last in-window reading by position and `initial` the first. An
      empty window uses a placeholder reading of stock 0 at both ends (its
      timestamp, the current time, is never read). */
  function DeriveVariation(v: RawVariation, start: int): (d: Variation)
    ensures d.name == v.name
    ensures |d.history| <= |v.history|
    ensures forall k :: 0 <= k < |d.history| ==> d.history[k].timestamp >= start
  {
    var w := InWindow(v.history, start);
    var latest := if |w| > 0 then w[|w| - 1] else RawHistoryEntry(0, 0);
    var initial := if |w| > 0 then w[0] else latest;
    var history := seq(|w|, k requires 0 <= k < |w| => HistoryEntry(w[k].timestamp, w[k].stock));
    Variation(v.name, history, latest.stock, latest.stock - initial.stock)
  }

  /** The derived history is the window's readings, position by position. */
  lemma DerivedHistoryIsWindow(v: RawVariation, start: int)
    ensures var d := DeriveVariation(v, start);
      |d.history| == |WindowIndices(v.history, start)| &&
      forall k :: 0 <= k < |d.history| ==>
        d.history[k].timestamp == v.history[WindowIndices(v.history, start)[k]].timestamp &&
        d.history[k].stock == v.history[WindowIndices(v.history, start)[k]].stock
  {
    InWindowIsOrderedSubsequence(v.history, start);
  }

  /** No reading in the window: empty history, current stock 0 and variation 0. */
  lemma EmptyWindowReadsZero(v: RawVariation, start: int)
    ensures var d := DeriveVariation(v, start);
      (d.history == [] <==> forall i :: 0 <= i < |v.history| ==> v.history[i].timestamp < start) &&
      (d.history == [] ==> d.currentStock == 0 && d.variation == 0)
  {
    InWindowEmpty(v.history, start);
  }

  /** With `first` and `last` the first and last in-window readings (by position),
      the current stock is the stock at `last` and the variation is the stock
      at `last` minus the stock at `first`. */
  lemma WindowEndpoints(v: RawVariation, start: int, first: int, last: int)
    requires 0 <= first <= last < |v.history|
    requires v.history[first].timestamp >= start && v.history[last].timestamp >= start
    requires forall j :: 0 <= j < first ==> v.history[j].timestamp < start
    requires forall j :: last < j < |v.history| ==> v.history[j].timestamp < start
    ensures DeriveVariation(v, start).currentStock == v.history[last].stock
    ensures DeriveVariation(v, start).variation == v.history[last].stock - v.history[first].stock
  {
    LastReadingClosesWindow(v.history, start, last);
    FirstReadingOpensWindow(v.history, start, first);
  }

  /** A single reading in the window gives no variation. */
  lemma SingleReadingHasNoVariation(v: RawVariation, start: int, i: int)
    requires 0 <= i < |v.history| && v.history[i].timestamp >= start
    requires forall j :: 0 <= j < |v.history| && j != i ==> v.history[j].timestamp < start
    ensures DeriveVariation(v, start).currentStock == v.history[i].stock
    ensures DeriveVariation(v, start).variation == 0
  {
    WindowEndpoints(v, start, i, i);
  }

  /** Readings that are never negative give a current stock that is never negative. */
  lemma CurrentStockNonNegative(v: RawVariation, start: int)
    requires forall e :: e in v.history ==> e.stock >= 0
    ensures DeriveVariation(v, start).currentStock >= 0
  {
  }

  /** A reading of 100 six days ago and one of 90 now, over a seven-day
      window (timestamps in milliseconds): current stock 90, variation -10. */
  lemma SevenDayWindowExample(now: int)
    ensures var day := 86400000;
      var v := RawVariation("v", [RawHistoryEntry(now - 6 * day, 100), RawHistoryEntry(now, 90)]);
      DeriveVariation(v, now - 7 * day).currentStock == 90 &&
      DeriveVariation(v, now - 7 * day).variation == -10
  {
    var day := 86400000;
    var v := RawVariation("v", [RawHistoryEntry(now - 6 * day, 100), RawHistoryEntry(now, 90)]);
    WindowEndpoints(v, now - 7 * day, 0, 1);
  }

  // ---------------------------------------------------------------------
  // One product
  // ---------------------------------------------------------------------

  /** Sum of the variations' current stock, accumulated left to right. */
  function SumCurrentStock(vs: seq<Variation>): int {
    if vs == [] then 0 else SumCurrentStock(vs[..|vs| - 1]) + vs[|vs| - 1].currentStock
  }

  /** Sum of the variations' change over the window, accumulated left to right. */
  function SumVariation(vs: seq<Variation>): int {
    if vs == [] then 0 else SumVariation(vs[..|vs| - 1]) + vs[|vs| - 1].variation
  }

  /** Every variation of a product restricted to the window, in order. */
  function DeriveVariations(raws: seq<RawVariation>, start: int): (r: seq<Variation>)
    ensures |r| == |raws|
    ensures forall i :: 0 <= i < |r| ==> r[i] == DeriveVariation(raws[i], start)
    ensures forall i :: 0 <= i < |r| ==>
              r[i].name == raws[i].name && |r[i].history| <= |raws[i].history| &&
              forall k :: 0 <= k < |r[i].history| ==> r[i].history[k].timestamp >= start
  {
    seq(|raws|, i requires 0 <= i < |raws| => DeriveVariation(raws[i], start))
  }

  /** A product with its variations restricted to the window and its totals. */
  function DeriveSku(sku: RawSku, start: int): (s: Sku)
    ensures s.id == sku.id && s.name == sku.name && s.url == sku.url
    ensures |s.variations| == |sku.variations|
    ensures forall i :: 0 <= i < |s.variations| ==> s.variations[i].name == sku.variations[i].name
  {
    var vs := DeriveVariations(sku.variations, start);
    Sku(sku.id, sku.name, sku.url, vs, SumCurrentStock(vs), SumVariation(vs))
  }

  /** Derives one product the way the dashboard does: one pass over the
      variations, adding each one's current stock and variation to two
      running totals. */
  method ProcessSku(sku: RawSku, start: int) returns (s: Sku)
    ensures s.variations == DeriveVariations(sku.variations, start)
    ensures s.totalStock == SumCurrentStock(s.variations)
    ensures s.totalVariation == SumVariation(s.variations)
    ensures s == DeriveSku(sku, start)
  {
    var totalStock := 0;
    var totalVariation := 0;
    var processed: seq<Variation> := [];
    var i := 0;
    while i < |sku.variations|
      invariant 0 <= i <= |sku.variations|
      invariant processed == DeriveVariations(sku.variations[..i], start)
      invariant totalStock == SumCurrentStock(processed)
      invariant totalVariation == SumVariation(processed)
    {
      var d := DeriveVariation(sku.variations[i], start);
      totalStock := totalStock + d.currentStock;
      totalVariation := totalVariation + d.variation;
      assert processed + [d] == DeriveVariations(sku.variations[..i + 1], start);
      processed := processed + [d];
      assert processed[..|processed| - 1] == processed[..i];
      i := i + 1;
    }
    assert sku.variations[..i] == sku.variations;
    s := Sku(sku.id, sku.name, sku.url, processed, totalStock, totalVariation);
  }

  /** A product none of whose readings falls in the window has totals 0 and 0. */
  lemma EmptyWindowTotalsZero(sku: RawSku, start: int)
    requires forall v, e :: v in sku.variations && e in v.history ==> e.timestamp < start
    ensures DeriveSku(sku, start).totalStock == 0
    ensures DeriveSku(sku, start).totalVariation == 0
  {
    var vs := DeriveVariations(sku.variations, start);
    forall k | 0 <= k < |vs| ensures vs[k].currentStock == 0 && vs[k].variation == 0 {
      var v := sku.variations[k];
      assert v in sku.variations;
      forall i | 0 <= i < |v.history| ensures v.history[i].timestamp < start {
        assert v.history[i] in v.history;
      }
      EmptyWindowReadsZero(v, start);
    }
    ZeroSums(vs);
  }

  lemma {:induction false} ZeroSums(vs: seq<Variation>)
    requires forall k :: 0 <= k < |vs| ==> vs[k].currentStock == 0 && vs[k].variation == 0
    ensures SumCurrentStock(vs) == 0 && SumVariation(vs) == 0
    decreases |vs|
  {
    if vs != [] {
      ZeroSums(vs[..|vs| - 1]);
    }
  }

  /** Readings that are never negative give a total stock that is never negative. */
  lemma TotalStockNonNegative(sku: RawSku, start: int)
    requires forall v, e :: v in sku.variations && e in v.history ==> e.stock >= 0
    ensures DeriveSku(sku, start).totalStock >= 0
  {
    var vs := DeriveVariations(sku.variations, start);
    forall k | 0 <= k < |vs| ensures vs[k].currentStock >= 0 {
      assert sku.variations[k] in sku.variations;
      CurrentStockNonNegative(sku.variations[k], start);
    }
    NonNegativeSum(vs);
  }

  lemma {:induction false} NonNegativeSum(vs: seq<Variation>)
    requires forall k :: 0 <= k < |vs| ==> vs[k].currentStock >= 0
    ensures SumCurrentStock(vs) >= 0
    decreases |vs|
  {
    if vs != [] {
      NonNegativeSum(vs[..|vs| - 1]);
    }
  }
}
