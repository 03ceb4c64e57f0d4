/** The de-duplicated list of the remaining symbols (app.py:567-577): the
    symbols of both views are collected in a set, and the target symbols
    not in that set are listed in their original order. */
module Remainder {
  import opened Indexing
  import opened Ranking

  /** The symbols shown in a view. */
  function Symbols(view: seq<Entry>): (r: set<string>)
    ensures forall i :: 0 <= i < |view| ==> view[i].symbol in r
    ensures forall sym :: sym in r ==> exists i :: 0 <= i < |view| && view[i].symbol == sym
  {
    set e | e in view :: e.symbol
  }

  /** The two loops at app.py:567-571 that fill `shown_symbols`. */
  method CollectShown(topIntensity: seq<Entry>, topWhales: seq<Entry>) returns (shown: set<string>)
    ensures shown == Symbols(topIntensity) + Symbols(topWhales)
  {
    shown := {};
    for i := 0 to |topIntensity|
      invariant shown == Symbols(topIntensity[..i])
    {
      SymbolsOfPrefix(topIntensity, i);
      shown := shown + {topIntensity[i].symbol};
    }
    assert topIntensity[..|topIntensity|] == topIntensity;
    for i := 0 to |topWhales|
      invariant shown == Symbols(topIntensity) + Symbols(topWhales[..i])
    {
      SymbolsOfPrefix(topWhales, i);
      shown := shown + {topWhales[i].symbol};
    }
    assert topWhales[..|topWhales|] == topWhales;
  }

  /** One more entry of a view adds its symbol to the shown set. */
  lemma SymbolsOfPrefix(view: seq<Entry>, i: nat)
    requires i < |view|
    ensures Symbols(view[..i + 1]) == Symbols(view[..i]) + {view[i].symbol}
  {
    assert view[..i + 1] == view[..i] + [view[i]];
  }

  /** `[s for s in target_symbols if s not in shown_symbols]`. */
  function Remaining(targets: seq<string>, shown: set<string>): (r: seq<string>)
    ensures |r| <= |targets|
    ensures forall sym :: sym in r <==> sym in targets && sym !in shown
  {
    if |targets| == 0 then []
    else
      var rest := Remaining(targets[1..], shown);
      assert forall sym :: sym in targets <==> sym == targets[0] || sym in targets[1..];
      if targets[0] in shown then rest else [targets[0]] + rest
  }

  /** The positions of the targets that are not shown, in increasing order. */
  ghost function UnshownPositions(targets: seq<string>, shown: set<string>): (p: seq<nat>)
    ensures forall i :: 0 <= i < |p| ==> p[i] < |targets|
  {
    if |targets| == 0 then []
    else
      var init := UnshownPositions(targets[..|targets| - 1], shown);
      if targets[|targets| - 1] in shown then init else init + [|targets| - 1]
  }

  lemma {:induction false} RemainingSnoc(targets: seq<string>, shown: set<string>)
    requires |targets| > 0
    ensures var last := targets[|targets| - 1];
      Remaining(targets, shown)
        == Remaining(targets[..|targets| - 1], shown) + (if last in shown then [] else [last])
  {
    if |targets| > 1 {
      var init := targets[..|targets| - 1];
      assert targets[1..][..|targets| - 2] == init[1..];
      RemainingSnoc(targets[1..], shown);
      assert init[0] == targets[0];
    }
  }

  /** The remainder is exactly the targets that neither view shows, at
      their original positions and in their original order: nothing else is
      dropped, nothing is added, and a target is kept once per occurrence. */
  lemma RemainingIsUnshownTargets(targets: seq<string>, shown: set<string>)
    ensures var r := Remaining(targets, shown); var p := UnshownPositions(targets, shown);
      && SelectedAt(r, targets, p)
      && (forall j :: 0 <= j < |targets| ==> (j in p <==> targets[j] !in shown))
  {
    RemainingSelects(targets, shown);
    UnshownPositionsExact(targets, shown);
  }

  lemma {:induction false} RemainingSelects(targets: seq<string>, shown: set<string>)
    ensures SelectedAt(Remaining(targets, shown), targets, UnshownPositions(targets, shown))
  {
    if |targets| > 0 {
      var n := |targets|;
      var init := targets[..n - 1];
      var r := Remaining(init, shown);
      var q := UnshownPositions(init, shown);
      RemainingSelects(init, shown);
      SelectedFromPrefix(r, init, q, targets);
      RemainingSnoc(targets, shown);
      if targets[n - 1] !in shown {
        SelectedAppend(r, targets, q, n - 1);
      }
    }
  }

  /** A position is kept exactly when the target there is not shown. */
  lemma {:induction false} UnshownPositionsExact(targets: seq<string>, shown: set<string>)
    ensures var p := UnshownPositions(targets, shown);
      forall j :: 0 <= j < |targets| ==> (j in p <==> targets[j] !in shown)
  {
    if |targets| > 0 {
      var init := targets[..|targets| - 1];
      UnshownPositionsExact(init, shown);
      var p := UnshownPositions(targets, shown);
      var q := UnshownPositions(init, shown);
      forall j | 0 <= j < |targets| ensures j in p <==> targets[j] !in shown {
        if j < |targets| - 1 {
          assert init[j] == targets[j];
          assert j in p <==> j in q;
        }
      }
    }
  }

  /** The distinct symbols of a non-empty list are its first symbol and those
      of the rest. */
  lemma SymbolsOfCons(targets: seq<string>)
    requires |targets| > 0
    ensures (set t | t in targets) == {targets[0]} + (set t | t in targets[1..])
  {
    assert forall t :: t in targets <==> t == targets[0] || t in targets[1..];
  }

  /** A list without repeats keeps none after its first element, and its
      first element does not recur. */
  lemma DistinctTail(targets: seq<string>)
    requires |targets| > 0
    requires forall i, j :: 0 <= i < j < |targets| ==> targets[i] != targets[j]
    ensures var rest := targets[1..];
      && (forall i, j :: 0 <= i < j < |rest| ==> rest[i] != rest[j])
      && targets[0] !in (set t | t in rest)
  {
    var rest := targets[1..];
    forall i, j | 0 <= i < j < |rest| ensures rest[i] != rest[j] {
      assert rest[i] == targets[i + 1] && rest[j] == targets[j + 1];
    }
    forall t | t in rest ensures t != targets[0] {
      var i :| 0 <= i < |rest| && rest[i] == t;
      assert targets[i + 1] == t;
    }
  }

  /** Adding a new element to a set adds one to its overlap with `shown`
      exactly when the element is shown. */
  lemma OverlapOfCons(shown: set<string>, first: string, others: set<string>)
    requires first !in others
    ensures |shown * ({first} + others)| == |shown * others| + (if first in shown then 1 else 0)
  {
    if first in shown {
      assert shown * ({first} + others) == {first} + shown * others;
    } else {
      assert shown * ({first} + others) == shown * others;
    }
  }

  /** With distinct targets, the remainder is shorter than the targets by
      the number of distinct shown symbols among them: a symbol shown in both
      views is removed once, like any other shown symbol. */
  lemma {:induction false} RemainingCount(targets: seq<string>, shown: set<string>)
    requires forall i, j :: 0 <= i < j < |targets| ==> targets[i] != targets[j]
    ensures |Remaining(targets, shown)| == |targets| - |shown * (set t | t in targets)|
  {
    if |targets| > 0 {
      var rest := targets[1..];
      DistinctTail(targets);
      RemainingCount(rest, shown);
      SymbolsOfCons(targets);
      OverlapOfCons(shown, targets[0], set t | t in rest);
    }
  }
}
