/** The ranking pass of `main_app`: the loop that builds `ranking_data`
    (app.py:365-421), one entry per symbol with at least two rows. */
module Ranking {
  import opened Wrappers
  import opened Indexing
  import opened Metrics

  /** One symbol's series as fetched, in the iteration order of the fetched data. */
  datatype SymbolSeries = SymbolSeries(symbol: string, rows: seq<Row>)

  /** One element of `ranking_data`. */
  datatype Entry = Entry(symbol: string, intensity: real, oiGrowthUsd: real, marketCap: real)

  /** The number of entries each view shows. */
  const TopN: nat := 10

  /** `supply_data.get(sym)`. */
  function ReferenceOf(supply: map<string, Reference>, symbol: string): Option<Reference>
  {
    if symbol in supply then Some(supply[symbol]) else None
  }

  /** A series is ranked unless it is empty or has a single row. */
  predicate Eligible(item: SymbolSeries)
  {
    |item.rows| >= 2
  }

  /** The entry appended for an eligible symbol. */
  function EntryOf(item: SymbolSeries, supply: map<string, Reference>): (e: Entry)
    requires Eligible(item)
    ensures e.symbol == item.symbol
  {
    var m := Compute(item.rows, ReferenceOf(supply, item.symbol));
    Entry(item.symbol, m.intensity, m.growthUsd, m.marketCap)
  }

  /** The ranking data of a prefix of the fetched series: one entry per
      eligible series, in iteration order. */
  function Ranked(bulk: seq<SymbolSeries>, supply: map<string, Reference>): seq<Entry>
  {
    if |bulk| == 0 then []
    else
      var init := Ranked(bulk[..|bulk| - 1], supply);
      var last := bulk[|bulk| - 1];
      if Eligible(last) then init + [EntryOf(last, supply)] else init
  }

  /** The loop at app.py:365-421. */
  method BuildRanking(bulk: seq<SymbolSeries>, supply: map<string, Reference>)
    returns (ranking: seq<Entry>)
    ensures ranking == Ranked(bulk, supply)
  {
    ranking := [];
    for i := 0 to |bulk|
      invariant ranking == Ranked(bulk[..i], supply)
    {
      assert bulk[..i + 1][..i] == bulk[..i];
      var item := bulk[i];
      if !Eligible(item) {
        continue;
      }
      ranking := ranking + [EntryOf(item, supply)];
    }
    assert bulk[..|bulk|] == bulk;
  }

  /** The positions of the eligible series, in increasing order. */
  ghost function EligiblePositions(bulk: seq<SymbolSeries>): (p: seq<nat>)
    ensures forall i :: 0 <= i < |p| ==> p[i] < |bulk| && Eligible(bulk[p[i]])
  {
    if |bulk| == 0 then []
    else
      var init := bulk[..|bulk| - 1];
      var q := EligiblePositions(init);
      assert forall i :: 0 <= i < |q| ==> bulk[q[i]] == init[q[i]];
      if Eligible(bulk[|bulk| - 1]) then q + [|bulk| - 1] else q
  }

  /** Exactly one entry per eligible series, in iteration order, and none for
      a series with fewer than two rows. */
  lemma RankedIsEligibleEntries(bulk: seq<SymbolSeries>, supply: map<string, Reference>)
    ensures var r := Ranked(bulk, supply); var p := EligiblePositions(bulk);
      && |r| == |p|
      && StrictlyIncreasing(p)
      && (forall i :: 0 <= i < |p| ==> p[i] < |bulk| && Eligible(bulk[p[i]]) && r[i] == EntryOf(bulk[p[i]], supply))
      && (forall j :: 0 <= j < |bulk| && Eligible(bulk[j]) ==> j in p)
  {
    RankedAtEligible(bulk, supply);
    EligiblePositionsIncreasing(bulk);
    EligiblePositionsComplete(bulk);
  }

  /** Every entry of the ranking data stands for a fetched series with at
      least two rows. */
  lemma RankedEntryHasSeries(bulk: seq<SymbolSeries>, supply: map<string, Reference>)
    ensures forall e :: e in Ranked(bulk, supply) ==>
      exists j :: 0 <= j < |bulk| && Eligible(bulk[j]) && bulk[j].symbol == e.symbol
  {
    var ranked := Ranked(bulk, supply);
    var p := EligiblePositions(bulk);
    RankedAtEligible(bulk, supply);
    forall e | e in ranked ensures exists j :: 0 <= j < |bulk| && Eligible(bulk[j]) && bulk[j].symbol == e.symbol {
      var i :| 0 <= i < |ranked| && ranked[i] == e;
      assert bulk[p[i]].symbol == e.symbol;
    }
  }

  lemma {:induction false} RankedAtEligible(bulk: seq<SymbolSeries>, supply: map<string, Reference>)
    ensures var r := Ranked(bulk, supply); var p := EligiblePositions(bulk);
      && |r| == |p|
      && (forall i :: 0 <= i < |p| ==> r[i] == EntryOf(bulk[p[i]], supply))
  {
    if |bulk| > 0 {
      var init := bulk[..|bulk| - 1];
      RankedAtEligible(init, supply);
      var q := EligiblePositions(init);
      assert forall i :: 0 <= i < |q| ==> bulk[q[i]] == init[q[i]];
    }
  }

  lemma {:induction false} EligiblePositionsIncreasing(bulk: seq<SymbolSeries>)
    ensures StrictlyIncreasing(EligiblePositions(bulk))
  {
    if |bulk| > 0 {
      var init := bulk[..|bulk| - 1];
      EligiblePositionsIncreasing(init);
      if Eligible(bulk[|bulk| - 1]) {
        IncreasingAppend(EligiblePositions(init), |bulk| - 1);
      }
    }
  }

  lemma {:induction false} EligiblePositionsComplete(bulk: seq<SymbolSeries>)
    ensures forall j :: 0 <= j < |bulk| && Eligible(bulk[j]) ==> j in EligiblePositions(bulk)
  {
    if |bulk| > 0 {
      var init := bulk[..|bulk| - 1];
      EligiblePositionsComplete(init);
      var p := EligiblePositions(bulk);
      var q := EligiblePositions(init);
      forall j | 0 <= j < |bulk| && Eligible(bulk[j]) ensures j in p {
        if j < |bulk| - 1 {
          assert init[j] == bulk[j];
          assert j in q;
        } else {
          assert p[|p| - 1] == j;
        }
      }
    }
  }
}
