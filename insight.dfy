/** The request for a written analysis of one product (services/geminiService.ts).
    Only a bounded sample of each variation's history is sent: its first
    three and last three readings and the number of readings. The text
    generation service is a parameter that answers with a text or fails;
    the prompt wording around the sample is not part of this model. */
module Insight {
  import opened StockTypes

  /** A sampled reading, its date already formatted for the prompt. */
  datatype SampledEntry = SampledEntry(timestamp: string, stock: int)

  /** What the prompt carries for one variation. */
  datatype VariationSample = VariationSample(name: string, historySample: seq<SampledEntry>, recordCount: int)

  /** What the text generation service gives back. */
  datatype Reply = Generated(text: string) | Failed

  /** The fixed answer when anything in the request fails. */
  const FallbackMessage: string :=
    "Falha ao gerar a análise de IA. Verifique sua chave de API e a configuração no painel."

  function Min(a: int, b: int): int {
    if a <= b then a else b
  }

  /** A position argument of JavaScript's Array.prototype.slice: a negative
      one counts from the end; the result lies between 0 and `n`. */
  function SlicePosition(k: int, n: nat): (p: int)
    ensures 0 <= p <= n
  {
    if k < 0 then (if n + k < 0 then 0 else n + k) else Min(k, n)
  }

  /** JavaScript's `s.slice(begin, end)`: the contiguous run of `s` from the
      position `begin` names up to the one `end` names, empty when they cross. */
  function Slice<T>(s: seq<T>, begin: int, end: int): (r: seq<T>)
    ensures var b, e := SlicePosition(begin, |s|), SlicePosition(end, |s|);
      |r| == (if b < e then e - b else 0) &&
      forall k :: 0 <= k < |r| ==> r[k] == s[b + k]
  {
    var b := SlicePosition(begin, |s|);
    var e := SlicePosition(end, |s|);
    if b < e then s[b..e] else []
  }

  /** `slice(0, m)` keeps the first `m` elements and, for a positive `m`,
      `slice(-m)` the last `m` (all of them when there are fewer). */
  lemma SliceEnds<T>(s: seq<T>, m: int)
    requires 0 < m
    ensures Slice(s, 0, m) == s[..Min(m, |s|)]
    ensures Slice(s, -m, |s|) == s[|s| - Min(m, |s|)..]
  {
  }

  /** `e` is one of the readings of `h`, with its date formatted. */
  predicate SampledFrom(e: SampledEntry, h: seq<HistoryEntry>, formatDate: int -> string) {
    exists i :: 0 <= i < |h| && e == SampledEntry(formatDate(h[i].timestamp), h[i].stock)
  }

  /** The first three readings followed by the last three, each formatted
      with `formatDate` (they overlap when there are fewer than six). */
  function HistorySample(h: seq<HistoryEntry>, formatDate: int -> string): (r: seq<SampledEntry>)
    ensures |r| == 2 * Min(3, |h|) <= 6
    ensures forall k :: 0 <= k < |r| ==> SampledFrom(r[k], h, formatDate)
  {
    var picked := Slice(h, 0, 3) + Slice(h, -3, |h|);
    assert forall k :: 0 <= k < |picked| ==> picked[k] in h;
    seq(|picked|, k requires 0 <= k < |picked| => SampledEntry(formatDate(picked[k].timestamp), picked[k].stock))
  }

  /** The sample is the first min(3, n) readings then the last min(3, n),
      each with its reading's stock and formatted date. */
  lemma HistorySampleShape(h: seq<HistoryEntry>, formatDate: int -> string)
    ensures var m := Min(3, |h|); var r := HistorySample(h, formatDate);
      (forall k :: 0 <= k < m ==>
        r[k] == SampledEntry(formatDate(h[k].timestamp), h[k].stock)) &&
      (forall k :: m <= k < 2 * m ==>
        r[k] == SampledEntry(formatDate(h[|h| - 2 * m + k].timestamp), h[|h| - 2 * m + k].stock))
  {
    SliceEnds(h, 3);
  }

  /** A history of at most three readings is sent twice over. */
  lemma ShortHistoryRepeats(h: seq<HistoryEntry>, formatDate: int -> string)
    requires |h| <= 3
    ensures var r := HistorySample(h, formatDate);
      r == r[..|h|] + r[..|h|] &&
      forall k :: 0 <= k < |h| ==> r[k].stock == h[k].stock
  {
    HistorySampleShape(h, formatDate);
  }

  /** The prompt's data: one sample per variation, in order, with the
      variation's name, at most six sampled readings and the full number of
      readings. */
  function DataSample(variations: seq<Variation>, formatDate: int -> string): (d: seq<VariationSample>)
    ensures |d| == |variations|
    ensures forall i :: 0 <= i < |d| ==>
              d[i].name == variations[i].name &&
              d[i].historySample == HistorySample(variations[i].history, formatDate) &&
              d[i].recordCount == |variations[i].history| &&
              |d[i].historySample| == 2 * Min(3, |variations[i].history|) <= 6
  {
    seq(|variations|, i requires 0 <= i < |variations| =>
      VariationSample(variations[i].name, HistorySample(variations[i].history, formatDate),
                      |variations[i].history|))
  }

  /** The analysis shown for a product: the service's text when it answers,
      the fixed fallback message when the request fails. */
  function GenerateStockInsight(skuName: string, variations: seq<Variation>, formatDate: int -> string,
                                generate: (string, seq<VariationSample>) -> Reply): (r: string)
    ensures generate(skuName, DataSample(variations, formatDate)).Failed? ==> r == FallbackMessage
    ensures generate(skuName, DataSample(variations, formatDate)).Generated? ==>
              r == generate(skuName, DataSample(variations, formatDate)).text
  {
    match generate(skuName, DataSample(variations, formatDate))
    case Generated(text) => text
    case Failed => FallbackMessage
  }
}
