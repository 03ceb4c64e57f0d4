/** The data path of `main_app` (app.py:345-359, 365-445, 567-577) without
    its display: the target universe, the ranking pass, the two views and
    the remainder. Fetching is outside the model: the fetched series arrive
    as the `bulk` parameter, standing for `fetch_bulk_data_one_shot` of the
    targets, and the reference table as `supply`. */
module Dashboard {
  import opened Wrappers
  import opened Metrics
  import opened Ranking
  import opened Views
  import opened Remainder

  /** How many of the most active symbols are watched. */
  const UniverseSize: nat := 100

  /** What the page shows once the data is in. */
  datatype Board = Board(topIntensity: seq<Entry>, topWhales: seq<Entry>, remaining: seq<string>)

  /** `sorted_symbols[:100]`. */
  function Targets(sortedSymbols: seq<string>): (t: seq<string>)
    ensures t <= sortedSymbols
    ensures |t| == if |sortedSymbols| < UniverseSize then |sortedSymbols| else UniverseSize
  {
    if |sortedSymbols| <= UniverseSize then sortedSymbols else sortedSymbols[..UniverseSize]
  }

  /** Every entry of a view stands for a fetched series with at least two rows. */
  lemma ViewEntriesAreRanked(bulk: seq<SymbolSeries>, supply: map<string, Reference>, k: SortKey)
    ensures forall e :: e in TopView(Ranked(bulk, supply), k) ==>
      exists j :: 0 <= j < |bulk| && Eligible(bulk[j]) && bulk[j].symbol == e.symbol
  {
    TopViewDrawnFrom(Ranked(bulk, supply), k);
    RankedEntryHasSeries(bulk, supply);
  }

  lemma ShownCoversViews(a: seq<Entry>, b: seq<Entry>)
    ensures forall e :: e in a + b ==> e.symbol in Symbols(a) + Symbols(b)
  {
    forall e | e in a + b ensures e.symbol in Symbols(a) + Symbols(b) {
      if e in a {
        var i :| 0 <= i < |a| && a[i] == e;
      } else {
        var i :| 0 <= i < |b| && b[i] == e;
      }
    }
  }

  /** Every entry of either view is kept out of the remainder and stands for
      a fetched series with at least two rows. */
  lemma ViewsAccounted(targets: seq<string>, bulk: seq<SymbolSeries>, supply: map<string, Reference>)
    ensures var a := TopView(Ranked(bulk, supply), ByIntensity);
      var b := TopView(Ranked(bulk, supply), ByGrowthUsd);
      forall e :: e in a + b ==>
        && e.symbol !in Remaining(targets, Symbols(a) + Symbols(b))
        && exists j :: 0 <= j < |bulk| && Eligible(bulk[j]) && bulk[j].symbol == e.symbol
  {
    var a := TopView(Ranked(bulk, supply), ByIntensity);
    var b := TopView(Ranked(bulk, supply), ByGrowthUsd);
    ViewEntriesAreRanked(bulk, supply, ByIntensity);
    ViewEntriesAreRanked(bulk, supply, ByGrowthUsd);
    ShownCoversViews(a, b);
  }

  /** The page's data: nothing when the symbol list or the fetched data is
      empty (the page stops there); otherwise the two views of the ranking
      data and the targets that neither view shows. */
  method BuildBoard(sortedSymbols: seq<string>, bulk: seq<SymbolSeries>, supply: map<string, Reference>)
    returns (board: Option<Board>)
    ensures board.None? <==> |sortedSymbols| == 0 || |bulk| == 0
    ensures board.Some? ==>
      && board.value.topIntensity == TopView(Ranked(bulk, supply), ByIntensity)
      && board.value.topWhales == TopView(Ranked(bulk, supply), ByGrowthUsd)
      && board.value.remaining == Remaining(Targets(sortedSymbols),
           Symbols(board.value.topIntensity) + Symbols(board.value.topWhales))
    ensures board.Some? ==> forall e :: e in board.value.topIntensity + board.value.topWhales ==>
      && e.symbol !in board.value.remaining
      && exists j :: 0 <= j < |bulk| && Eligible(bulk[j]) && bulk[j].symbol == e.symbol
  {
    if |sortedSymbols| == 0 || |bulk| == 0 {
      return None;
    }
    var targets := Targets(sortedSymbols);
    var ranking := BuildRanking(bulk, supply);
    var topIntensity: seq<Entry> := [];
    var topWhales: seq<Entry> := [];
    if |ranking| > 0 {
      topIntensity := TopView(ranking, ByIntensity);
      topWhales := TopView(ranking, ByGrowthUsd);
    }
    assert topIntensity == TopView(ranking, ByIntensity) && topWhales == TopView(ranking, ByGrowthUsd) by {
      if |ranking| == 0 {
        assert |TopView(ranking, ByIntensity)| == 0 && |TopView(ranking, ByGrowthUsd)| == 0;
      }
    }
    var shown := CollectShown(topIntensity, topWhales);
    var remaining := Remaining(targets, shown);
    ViewsAccounted(targets, bulk, supply);
    board := Some(Board(topIntensity, topWhales, remaining));
  }
}
