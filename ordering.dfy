/** The order in which the dashboard lists its products (the comparator
    handed to `data.sort` in App.tsx): favourite products first, then by the
    chosen column, ascending or descending. */
module Ordering {
  import opened StockTypes

  /** The columns a user can sort by. */
  datatype SortKey = Name | TotalStock | TotalVariation

  datatype Direction = Asc | Desc

  datatype SortConfig = SortConfig(key: SortKey, direction: Direction)

  // ---------------------------------------------------------------------
  // String order
  // ---------------------------------------------------------------------

  /** The UTF-16 code units of one character: the character itself below
      U+10000, its surrogate pair above (a high surrogate, then a low one). */
  function CodeUnits(c: char): (u: seq<int>)
    ensures 1 <= |u| <= 2
    ensures forall k :: 0 <= k < |u| ==> 0 <= u[k] < 0x10000
    ensures |u| == 2 <==> 0xD800 <= u[0] < 0xDC00
  {
    var n := c as int;
    if n < 0x10000 then [n] else [0xD800 + (n - 0x10000) / 0x400, 0xDC00 + (n - 0x10000) % 0x400]
  }

  /** The UTF-16 encoding of a string, the form JavaScript compares. */
  function Utf16(s: string): (u: seq<int>)
    ensures |s| <= |u| <= 2 * |s|
  {
    if s == [] then [] else CodeUnits(s[0]) + Utf16(s[1..])
  }

  lemma CodeUnitsInjective(c: char, d: char)
    requires CodeUnits(c) == CodeUnits(d)
    ensures c == d
  {
    var n, m := c as int, d as int;
    if n >= 0x10000 {
      assert n - 0x10000 == 0x400 * ((n - 0x10000) / 0x400) + (n - 0x10000) % 0x400;
      assert m - 0x10000 == 0x400 * ((m - 0x10000) / 0x400) + (m - 0x10000) % 0x400;
    }
  }

  /** Different strings have different encodings. */
  lemma {:induction false} Utf16Injective(a: string, b: string)
    requires Utf16(a) == Utf16(b)
    ensures a == b
    decreases |a|
  {
    if a != [] && b != [] {
      var ua, ub := CodeUnits(a[0]), CodeUnits(b[0]);
      assert Utf16(a) == ua + Utf16(a[1..]) && Utf16(b) == ub + Utf16(b[1..]);
      assert ua[0] == Utf16(a)[0] == Utf16(b)[0] == ub[0];
      assert |ua| == |ub|;
      assert ua == Utf16(a)[..|ua|] && ub == Utf16(b)[..|ub|];
      CodeUnitsInjective(a[0], b[0]);
      assert Utf16(a[1..]) == Utf16(a)[|ua|..] && Utf16(b[1..]) == Utf16(b)[|ub|..];
      Utf16Injective(a[1..], b[1..]);
      assert a == [a[0]] + a[1..] && b == [b[0]] + b[1..];
    }
  }

  /** Lexicographic order on code units, a proper prefix before its extensions. */
  predicate UnitsLess(a: seq<int>, b: seq<int>)
    ensures UnitsLess(a, b) ==> |b| > 0
    ensures |a| < |b| && a == b[..|a|] ==> UnitsLess(a, b)
    decreases |a|
  {
    |b| > 0 && (|a| == 0 || if a[0] == b[0] then UnitsLess(a[1..], b[1..]) else a[0] < b[0])
  }

  lemma {:induction false} UnitsLessIrreflexive(a: seq<int>)
    ensures !UnitsLess(a, a)
    decreases |a|
  {
    if |a| > 0 {
      UnitsLessIrreflexive(a[1..]);
    }
  }

  lemma {:induction false} UnitsLessAsymmetric(a: seq<int>, b: seq<int>)
    ensures UnitsLess(a, b) ==> !UnitsLess(b, a)
    decreases |a|
  {
    if |a| > 0 && |b| > 0 && a[0] == b[0] {
      UnitsLessAsymmetric(a[1..], b[1..]);
    }
  }

  lemma {:induction false} UnitsLessTransitive(a: seq<int>, b: seq<int>, c: seq<int>)
    requires UnitsLess(a, b) && UnitsLess(b, c)
    ensures UnitsLess(a, c)
    decreases |a|
  {
    if |a| > 0 && a[0] == b[0] && b[0] == c[0] {
      UnitsLessTransitive(a[1..], b[1..], c[1..]);
    }
  }

  lemma {:induction false} UnitsLessTrichotomous(a: seq<int>, b: seq<int>)
    ensures a == b || UnitsLess(a, b) || UnitsLess(b, a)
    decreases |a|
  {
    if |a| > 0 && |b| > 0 && a[0] == b[0] {
      UnitsLessTrichotomous(a[1..], b[1..]);
      if a[1..] == b[1..] {
        assert a == [a[0]] + a[1..] && b == [b[0]] + b[1..];
      }
    }
  }

  /** JavaScript's `<` on strings: their UTF-16 code units compared
      lexicographically. */
  predicate StrLess(a: string, b: string)
    ensures StrLess(a, b) ==> b != []
    ensures a == [] ==> (StrLess(a, b) <==> b != [])
  {
    UnitsLess(Utf16(a), Utf16(b))
  }

  /** Two names are equal or one is before the other. */
  lemma StrLessTrichotomous(a: string, b: string)
    ensures a == b || StrLess(a, b) || StrLess(b, a)
  {
    UnitsLessTrichotomous(Utf16(a), Utf16(b));
    if Utf16(a) == Utf16(b) {
      Utf16Injective(a, b);
    }
  }

  /** A character above U+FFFF is before one in U+E000..U+FFFF, because its
      first code unit is a surrogate. */
  lemma SurrogatePairBeforeHighBmp()
    ensures StrLess("\U{1F600}", "\U{FF21}") && !StrLess("\U{FF21}", "\U{1F600}")
  {
    assert Utf16("\U{1F600}") == [0xD83D, 0xDE00];
    assert Utf16("\U{FF21}") == [0xFF21];
  }

  // ---------------------------------------------------------------------
  // The comparator
  // ---------------------------------------------------------------------

  /** The two products hold the same value in the chosen column. */
  predicate KeyEqual(a: Sku, b: Sku, key: SortKey) {
    match key
    case Name => a.name == b.name
    case TotalStock => a.totalStock == b.totalStock
    case TotalVariation => a.totalVariation == b.totalVariation
  }

  /** The generic `<` of the comparator applied to the chosen column; equal
      values are never less than each other. */
  predicate KeyLess(a: Sku, b: Sku, key: SortKey)
    ensures KeyEqual(a, b, key) ==> !KeyLess(a, b, key)
  {
    match key
    case Name => UnitsLessIrreflexive(Utf16(a.name)); StrLess(a.name, b.name)
    case TotalStock => a.totalStock < b.totalStock
    case TotalVariation => a.totalVariation < b.totalVariation
  }

  /** Reference order on a column: `a` comes no later than `b`. */
  predicate KeyAtMost(a: Sku, b: Sku, key: SortKey) {
    match key
    case Name => a.name == b.name || StrLess(a.name, b.name)
    case TotalStock => a.totalStock <= b.totalStock
    case TotalVariation => a.totalVariation <= b.totalVariation
  }

  /** The comparator: negative when `a` goes first, positive when `b` does. */
  function Compare(a: Sku, b: Sku, favorites: seq<string>, config: SortConfig): (c: int)
    ensures -1 <= c <= 1
    ensures a.id in favorites && b.id !in favorites ==> c < 0
    ensures a.id !in favorites && b.id in favorites ==> c > 0
  {
    var isAFavorite := a.id in favorites;
    var isBFavorite := b.id in favorites;
    if isAFavorite && !isBFavorite then -1
    else if !isAFavorite && isBFavorite then 1
    else if KeyLess(a, b, config.key) then (if config.direction == Asc then -1 else 1)
    else if KeyLess(b, a, config.key) then (if config.direction == Asc then 1 else -1)
    else 0
  }

  /** `a` may precede `b`. */
  predicate InOrder(a: Sku, b: Sku, favorites: seq<string>, config: SortConfig) {
    Compare(a, b, favorites, config) <= 0
  }

  ghost predicate Sorted(s: seq<Sku>, favorites: seq<string>, config: SortConfig) {
    forall i, j :: 0 <= i < j < |s| ==> InOrder(s[i], s[j], favorites, config)
  }

  lemma KeyLessAsymmetric(a: Sku, b: Sku, key: SortKey)
    ensures KeyLess(a, b, key) ==> !KeyLess(b, a, key)
  {
    UnitsLessAsymmetric(Utf16(a.name), Utf16(b.name));
  }

  /** Not being after is transitive on every column. */
  lemma KeyNotLessTransitive(a: Sku, b: Sku, c: Sku, key: SortKey)
    requires !KeyLess(b, a, key) && !KeyLess(c, b, key)
    ensures !KeyLess(c, a, key)
  {
    if key == Name && StrLess(c.name, a.name) {
      StrLessTrichotomous(a.name, b.name);
      if StrLess(a.name, b.name) {
        UnitsLessTransitive(Utf16(c.name), Utf16(a.name), Utf16(b.name));
      }
    }
  }

  /** Swapping the arguments negates the comparator. */
  lemma CompareAntisymmetric(a: Sku, b: Sku, favorites: seq<string>, config: SortConfig)
    ensures Compare(a, b, favorites, config) == -Compare(b, a, favorites, config)
  {
    KeyLessAsymmetric(a, b, config.key);
    KeyLessAsymmetric(b, a, config.key);
  }

  /** The comparator ties two products exactly when they have the same
      favourite status and the same value in the chosen column. */
  lemma CompareZeroIff(a: Sku, b: Sku, favorites: seq<string>, config: SortConfig)
    ensures Compare(a, b, favorites, config) == 0 <==>
              (a.id in favorites <==> b.id in favorites) && KeyEqual(a, b, config.key)
  {
    StrLessTrichotomous(a.name, b.name);
  }

  /** Any two products can be put in order one way or the other. */
  lemma InOrderTotal(a: Sku, b: Sku, favorites: seq<string>, config: SortConfig)
    ensures InOrder(a, b, favorites, config) || InOrder(b, a, favorites, config)
  {
    CompareAntisymmetric(a, b, favorites, config);
  }

  lemma InOrderTransitive(a: Sku, b: Sku, c: Sku, favorites: seq<string>, config: SortConfig)
    requires InOrder(a, b, favorites, config) && InOrder(b, c, favorites, config)
    ensures InOrder(a, c, favorites, config)
  {
    var key := config.key;
    KeyLessAsymmetric(a, b, key);
    KeyLessAsymmetric(b, c, key);
    KeyLessAsymmetric(a, c, key);
    if (a.id in favorites <==> b.id in favorites) && (b.id in favorites <==> c.id in favorites) {
      if config.direction == Asc {
        KeyNotLessTransitive(a, b, c, key);
      } else {
        KeyNotLessTransitive(c, b, a, key);
      }
    }
  }

  /** The comparator is never less than the reference order on a column. */
  lemma KeyAtMostIffNotLess(a: Sku, b: Sku, key: SortKey)
    ensures KeyAtMost(a, b, key) <==> !KeyLess(b, a, key)
  {
    StrLessTrichotomous(a.name, b.name);
    UnitsLessAsymmetric(Utf16(a.name), Utf16(b.name));
    UnitsLessIrreflexive(Utf16(a.name));
  }

  /** In a sorted listing every favourite precedes every other product. */
  lemma SortedFavoritesFirst(s: seq<Sku>, favorites: seq<string>, config: SortConfig)
    requires Sorted(s, favorites, config)
    ensures forall i, j :: 0 <= i < j < |s| && s[j].id in favorites ==> s[i].id in favorites
  {
    forall i, j | 0 <= i < j < |s| && s[j].id in favorites
      ensures s[i].id in favorites
    {
      assert InOrder(s[i], s[j], favorites, config);
    }
  }

  /** In a sorted listing two products that are both favourites, or both not,
      follow the chosen column: non-decreasing ascending, non-increasing descending. */
  lemma SortedByColumn(s: seq<Sku>, favorites: seq<string>, config: SortConfig)
    requires Sorted(s, favorites, config)
    ensures forall i, j :: 0 <= i < j < |s| && (s[i].id in favorites <==> s[j].id in favorites) ==>
              if config.direction == Asc then KeyAtMost(s[i], s[j], config.key)
              else KeyAtMost(s[j], s[i], config.key)
  {
    forall i, j | 0 <= i < j < |s| && (s[i].id in favorites <==> s[j].id in favorites)
      ensures if config.direction == Asc then KeyAtMost(s[i], s[j], config.key)
              else KeyAtMost(s[j], s[i], config.key)
    {
      assert InOrder(s[i], s[j], favorites, config);
      KeyLessAsymmetric(s[i], s[j], config.key);
      KeyAtMostIffNotLess(s[i], s[j], config.key);
      KeyAtMostIffNotLess(s[j], s[i], config.key);
    }
  }

  // ---------------------------------------------------------------------
  // The sort
  // ---------------------------------------------------------------------

  /** `origin` gives, for every position of `s`, the position in `orig` its
      element came from. */
  ghost predicate Tracks(s: seq<Sku>, orig: seq<Sku>, origin: seq<int>) {
    |origin| == |s| == |orig| &&
    forall k :: 0 <= k < |s| ==> 0 <= origin[k] < |orig| && s[k] == orig[origin[k]]
  }

  ghost predicate Distinct(origin: seq<int>) {
    forall p, q :: 0 <= p < q < |origin| ==> origin[p] != origin[q]
  }

  /** Among the first `n` elements, ties under the comparator (same favourite
      status and equal column value, by `CompareZeroIff`) keep their original order. */
  ghost predicate StableUpTo(s: seq<Sku>, origin: seq<int>, n: int, favorites: seq<string>, config: SortConfig)
    requires 0 <= n <= |s| == |origin|
  {
    forall p, q :: 0 <= p < q < n && Compare(s[p], s[q], favorites, config) == 0 ==> origin[p] < origin[q]
  }

  /** The array after `k` rounds of insertion: the first `k` elements are
      sorted, stably, and come from the first `k` original positions; the
      rest are untouched. */
  ghost predicate SortedPrefix(s: seq<Sku>, orig: seq<Sku>, origin: seq<int>, k: int,
                               favorites: seq<string>, config: SortConfig) {
    0 <= k <= |s| && Tracks(s, orig, origin) &&
    (forall p, q :: 0 <= p < q < k ==> InOrder(s[p], s[q], favorites, config)) &&
    (forall m :: 0 <= m < k ==> origin[m] < k) &&
    (forall m :: k <= m < |s| ==> origin[m] == m) &&
    (forall p, q :: 0 <= p < q < k ==> origin[p] != origin[q]) &&
    StableUpTo(s, origin, k, favorites, config)
  }

  /** Inserting original element `i`, now at position `j`: everything after
      it up to `i` must follow it strictly, and the rest of the prefix is
      sorted and stable. */
  ghost predicate Inserting(s: seq<Sku>, orig: seq<Sku>, origin: seq<int>, i: int, j: int,
                            favorites: seq<string>, config: SortConfig) {
    0 <= j <= i < |s| && Tracks(s, orig, origin) &&
    (forall p, q :: 0 <= p < q <= i && q != j ==> InOrder(s[p], s[q], favorites, config)) &&
    (forall q :: j < q <= i ==> Compare(s[j], s[q], favorites, config) < 0) &&
    origin[j] == i &&
    (forall m :: 0 <= m <= i && m != j ==> origin[m] < i) &&
    (forall m :: i < m < |s| ==> origin[m] == m) &&
    (forall p, q :: 0 <= p < q <= i && p != j && q != j ==> origin[p] != origin[q]) &&
    (forall p, q :: 0 <= p < q <= i && q != j && Compare(s[p], s[q], favorites, config) == 0 ==>
       origin[p] < origin[q])
  }

  function Swapped<T>(s: seq<T>, j: int): (r: seq<T>)
    requires 0 < j < |s|
    ensures |r| == |s| && r[j - 1] == s[j] && r[j] == s[j - 1]
    ensures forall k :: 0 <= k < |s| && k != j - 1 && k != j ==> r[k] == s[k]
  {
    s[j - 1 := s[j]][j := s[j - 1]]
  }

  lemma InsertingStarts(s: seq<Sku>, orig: seq<Sku>, origin: seq<int>, i: int,
                        favorites: seq<string>, config: SortConfig)
    requires SortedPrefix(s, orig, origin, i, favorites, config) && i < |s|
    ensures Inserting(s, orig, origin, i, i, favorites, config)
  {
  }

  lemma InsertingSwaps(s: seq<Sku>, orig: seq<Sku>, origin: seq<int>, i: int, j: int,
                       favorites: seq<string>, config: SortConfig)
    requires Inserting(s, orig, origin, i, j, favorites, config)
    requires 0 < j && Compare(s[j - 1], s[j], favorites, config) > 0
    ensures Inserting(Swapped(s, j), orig, Swapped(origin, j), i, j - 1, favorites, config)
  {
    CompareAntisymmetric(s[j - 1], s[j], favorites, config);
    SwapKeepsOrder(s, i, j, favorites, config);
    SwapKeepsTies(s, origin, i, j, favorites, config);
  }

  lemma SwapKeepsOrder(s: seq<Sku>, i: int, j: int, favorites: seq<string>, config: SortConfig)
    requires 0 < j <= i < |s|
    requires forall p, q :: 0 <= p < q <= i && q != j ==> InOrder(s[p], s[q], favorites, config)
    requires forall q :: j < q <= i ==> Compare(s[j], s[q], favorites, config) < 0
    requires Compare(s[j], s[j - 1], favorites, config) < 0
    ensures var t := Swapped(s, j);
      forall p, q :: 0 <= p < q <= i && q != j - 1 ==> InOrder(t[p], t[q], favorites, config)
  {
    var t := Swapped(s, j);
    forall p, q | 0 <= p < q <= i && q != j - 1
      ensures InOrder(t[p], t[q], favorites, config)
    {
      if p == j - 1 {
        if q != j {
          assert Compare(s[j], s[q], favorites, config) < 0;
        }
      } else if p == j {
        assert InOrder(s[j - 1], s[q], favorites, config);
      } else if q == j {
        assert InOrder(s[p], s[j - 1], favorites, config);
      }
    }
  }

  lemma SwapKeepsTies(s: seq<Sku>, origin: seq<int>, i: int, j: int, favorites: seq<string>, config: SortConfig)
    requires 0 < j <= i < |s| == |origin|
    requires forall p, q :: 0 <= p < q <= i && q != j && Compare(s[p], s[q], favorites, config) == 0 ==>
               origin[p] < origin[q]
    requires Compare(s[j - 1], s[j], favorites, config) > 0
    ensures var t, o := Swapped(s, j), Swapped(origin, j);
      forall p, q :: 0 <= p < q <= i && q != j - 1 && Compare(t[p], t[q], favorites, config) == 0 ==>
        o[p] < o[q]
  {
    var t, o := Swapped(s, j), Swapped(origin, j);
    forall p, q | 0 <= p < q <= i && q != j - 1 && Compare(t[p], t[q], favorites, config) == 0
      ensures o[p] < o[q]
    {
      if p == j {
        assert Compare(s[j - 1], s[q], favorites, config) == 0;
      } else if q == j {
        assert Compare(s[p], s[j - 1], favorites, config) == 0;
      }
    }
  }

  lemma InsertingEnds(s: seq<Sku>, orig: seq<Sku>, origin: seq<int>, i: int, j: int,
                      favorites: seq<string>, config: SortConfig)
    requires Inserting(s, orig, origin, i, j, favorites, config)
    requires j == 0 || Compare(s[j - 1], s[j], favorites, config) <= 0
    ensures SortedPrefix(s, orig, origin, i + 1, favorites, config)
  {
    forall p | 0 <= p < j
      ensures InOrder(s[p], s[j], favorites, config)
    {
      if p < j - 1 {
        InOrderTransitive(s[p], s[j - 1], s[j], favorites, config);
      }
    }
  }

  lemma SortedPrefixStarts(s: seq<Sku>, favorites: seq<string>, config: SortConfig)
    ensures SortedPrefix(s, s, seq(|s|, k => k), 0, favorites, config)
  {
  }

  lemma SortedPrefixCompletes(s: seq<Sku>, orig: seq<Sku>, origin: seq<int>,
                              favorites: seq<string>, config: SortConfig)
    requires SortedPrefix(s, orig, origin, |s|, favorites, config)
    ensures Sorted(s, favorites, config)
    ensures Tracks(s, orig, origin) && Distinct(origin)
    ensures StableUpTo(s, origin, |s|, favorites, config)
  {
  }

  /** Sorts the products in place with the comparator (an insertion sort
      that swaps neighbours while they are out of order). The ghost result
      tells where each element came from: the sort is a permutation and it
      is stable, ties keep their former relative order. */
  method SortSkus(a: array<Sku>, favorites: seq<string>, config: SortConfig) returns (ghost origin: seq<int>)
    modifies a
    ensures Sorted(a[..], favorites, config)
    ensures multiset(a[..]) == multiset(old(a[..]))
    ensures Tracks(a[..], old(a[..]), origin) && Distinct(origin)
    ensures StableUpTo(a[..], origin, a.Length, favorites, config)
  {
    ghost var orig := a[..];
    origin := seq(a.Length, k => k);
    SortedPrefixStarts(orig, favorites, config);
    var i := 0;
    while i < a.Length
      invariant SortedPrefix(a[..], orig, origin, i, favorites, config)
      invariant multiset(a[..]) == multiset(old(a[..]))
    {
      origin := Insert(a, i, favorites, config, orig, origin);
      i := i + 1;
    }
    SortedPrefixCompletes(a[..], orig, origin, favorites, config);
  }

  /** Moves `a[i]` down into the sorted prefix `a[..i]`, past every element
      that must follow it and no further. */
  method Insert(a: array<Sku>, i: int, favorites: seq<string>, config: SortConfig,
                ghost orig: seq<Sku>, ghost origin0: seq<int>) returns (ghost origin: seq<int>)
    requires i < a.Length && SortedPrefix(a[..], orig, origin0, i, favorites, config)
    modifies a
    ensures SortedPrefix(a[..], orig, origin, i + 1, favorites, config)
    ensures multiset(a[..]) == multiset(old(a[..]))
  {
    origin := origin0;
    InsertingStarts(a[..], orig, origin, i, favorites, config);
    var j := i;
    while 0 < j && Compare(a[j - 1], a[j], favorites, config) > 0
      invariant Inserting(a[..], orig, origin, i, j, favorites, config)
      invariant multiset(a[..]) == multiset(old(a[..]))
    {
      InsertingSwaps(a[..], orig, origin, i, j, favorites, config);
      SwapDown(a, j);
      origin := Swapped(origin, j);
      j := j - 1;
    }
    InsertingEnds(a[..], orig, origin, i, j, favorites, config);
  }

  /** Exchanges `a[j - 1]` and `a[j]`. */
  method SwapDown(a: array<Sku>, j: int)
    requires 0 < j < a.Length
    modifies a
    ensures a[..] == Swapped(old(a[..]), j)
    ensures multiset(a[..]) == multiset(old(a[..]))
  {
    a[j - 1], a[j] := a[j], a[j - 1];
  }
}
