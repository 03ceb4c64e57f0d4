/** The two top-10 views (app.py:437-445): `sorted(ranking_data, key=...,
    reverse=True)[:10]` by intensity and by dollar growth. Python's sort is
    stable also when reversed, so entries with equal keys keep the order of
    `ranking_data`. */
module Views {
  import opened Ranking

  /** The field a view sorts on. */
  datatype SortKey = ByIntensity | ByGrowthUsd

  function Key(e: Entry, k: SortKey): real
  {
    match k
    case ByIntensity => e.intensity
    case ByGrowthUsd => e.oiGrowthUsd
  }

  /** Keys never increase from one entry to the next. */
  ghost predicate SortedDesc(s: seq<Entry>, k: SortKey)
  {
    forall i :: 0 < i < |s| ==> Key(s[i - 1], k) >= Key(s[i], k)
  }

  /** In a sorted sequence every entry's key is at least that of every later entry. */
  lemma {:induction false} SortedPairwise(s: seq<Entry>, k: SortKey)
    requires SortedDesc(s, k)
    ensures forall i, j :: 0 <= i < j < |s| ==> Key(s[i], k) >= Key(s[j], k)
  {
    if |s| > 1 {
      SortedPairwise(s[1..], k);
      forall i, j | 0 <= i < j < |s| ensures Key(s[i], k) >= Key(s[j], k) {
        if i > 0 {
          assert s[i] == s[1..][i - 1] && s[j] == s[1..][j - 1];
        } else if j > 1 {
          assert Key(s[1], k) >= Key(s[j], k) by { assert s[1] == s[1..][0] && s[j] == s[1..][j - 1]; }
        }
      }
    }
  }

  /** `[e]` when `e`'s key is `v`, else nothing. */
  function Tie(e: Entry, k: SortKey, v: real): seq<Entry>
  {
    if Key(e, k) == v then [e] else []
  }

  /** The entries of `s` whose key equals `v`, in their order in `s`. */
  function WithKey(s: seq<Entry>, k: SortKey, v: real): seq<Entry>
  {
    if |s| == 0 then [] else Tie(s[0], k, v) + WithKey(s[1..], k, v)
  }


  /** Puts `x` in front of the first entry whose key is not above its own,
      so that `x` precedes every entry of equal key. */
  function InsertDesc(x: Entry, s: seq<Entry>, k: SortKey): seq<Entry>
  {
    if |s| == 0 then [x]
    else if Key(s[0], k) > Key(x, k) then [s[0]] + InsertDesc(x, s[1..], k)
    else [x] + s
  }

  /** Inserting adds `x` and nothing else. */
  lemma {:induction false} InsertDescAdds(x: Entry, s: seq<Entry>, k: SortKey)
    ensures var r := InsertDesc(x, s, k);
      && |r| == |s| + 1
      && multiset(r) == multiset(s) + multiset{x}
      && (r[0] == x || (|s| > 0 && r[0] == s[0]))
  {
    if |s| > 0 && Key(s[0], k) > Key(x, k) {
      assert s == [s[0]] + s[1..];
      InsertDescAdds(x, s[1..], k);
    }
  }

  /** Inserting into a sorted sequence keeps it sorted. */
  lemma {:induction false} InsertDescSorted(x: Entry, s: seq<Entry>, k: SortKey)
    requires SortedDesc(s, k)
    ensures SortedDesc(InsertDesc(x, s, k), k)
  {
    if |s| > 0 && Key(s[0], k) > Key(x, k) {
      var tail := s[1..];
      assert SortedDesc(tail, k) by {
        forall i | 0 < i < |tail| ensures Key(tail[i - 1], k) >= Key(tail[i], k) {
          assert tail[i - 1] == s[i] && tail[i] == s[i + 1];
        }
      }
      InsertDescSorted(x, tail, k);
      InsertDescAdds(x, tail, k);
      var rest := InsertDesc(x, tail, k);
      var r := [s[0]] + rest;
      assert Key(r[0], k) >= Key(r[1], k) by {
        if |tail| > 0 && rest[0] == tail[0] {
          assert Key(s[0], k) >= Key(s[1], k);
        }
      }
      forall i | 0 < i < |r| ensures Key(r[i - 1], k) >= Key(r[i], k) {
        if i > 1 {
          assert r[i - 1] == rest[i - 2] && r[i] == rest[i - 1];
        }
      }
    } else if |s| > 0 {
      var r := [x] + s;
      forall i | 0 < i < |r| ensures Key(r[i - 1], k) >= Key(r[i], k) {
        if i > 1 {
          assert r[i - 1] == s[i - 2] && r[i] == s[i - 1];
        }
      }
    }
  }

  /** The stable descending sort: `sorted(s, key=k, reverse=True)`. */
  function SortDesc(s: seq<Entry>, k: SortKey): (r: seq<Entry>)
    ensures SortedDesc(r, k)
    ensures multiset(r) == multiset(s)
  {
    if |s| == 0 then []
    else
      assert s == [s[0]] + s[1..];
      var rest := SortDesc(s[1..], k);
      InsertDescAdds(s[0], rest, k);
      InsertDescSorted(s[0], rest, k);
      InsertDesc(s[0], rest, k)
  }

  lemma WithKeyCons(e: Entry, s: seq<Entry>, k: SortKey, v: real)
    ensures WithKey([e] + s, k, v) == Tie(e, k, v) + WithKey(s, k, v)
  {
    assert ([e] + s)[1..] == s;
  }

  /** Inserting keeps the order among entries of any one key, with `x` first. */
  lemma {:induction false} InsertKeepsTies(x: Entry, s: seq<Entry>, k: SortKey, v: real)
    ensures WithKey(InsertDesc(x, s, k), k, v) == Tie(x, k, v) + WithKey(s, k, v)
  {
    if |s| == 0 {
      WithKeyCons(x, [], k, v);
    } else if Key(s[0], k) > Key(x, k) {
      InsertKeepsTies(x, s[1..], k, v);
      InsertBehind(x, s, k, v);
    } else {
      assert InsertDesc(x, s, k) == [x] + s;
      WithKeyCons(x, s, k, v);
    }
  }

  /** The step of `InsertKeepsTies` where `x` moves past the first entry. */
  lemma InsertBehind(x: Entry, s: seq<Entry>, k: SortKey, v: real)
    requires |s| > 0 && Key(s[0], k) > Key(x, k)
    requires WithKey(InsertDesc(x, s[1..], k), k, v) == Tie(x, k, v) + WithKey(s[1..], k, v)
    ensures WithKey(InsertDesc(x, s, k), k, v) == Tie(x, k, v) + WithKey(s, k, v)
  {
    var rest := InsertDesc(x, s[1..], k);
    var a, b, t := Tie(s[0], k, v), Tie(x, k, v), WithKey(s[1..], k, v);
    assert WithKey(InsertDesc(x, s, k), k, v) == a + (b + t) by {
      assert InsertDesc(x, s, k) == [s[0]] + rest;
      WithKeyCons(s[0], rest, k, v);
    }
    assert WithKey(s, k, v) == a + t by {
      WithKeyCons(s[0], s[1..], k, v);
      assert [s[0]] + s[1..] == s;
    }
    TiesCommute(s[0], x, k, v, t);
  }

  /** An entry of a higher key and one of a lower key never both have key `v`. */
  lemma TiesCommute(hi: Entry, lo: Entry, k: SortKey, v: real, t: seq<Entry>)
    requires Key(hi, k) > Key(lo, k)
    ensures Tie(hi, k, v) + (Tie(lo, k, v) + t) == Tie(lo, k, v) + (Tie(hi, k, v) + t)
  {
    if Key(lo, k) == v {
      assert Tie(hi, k, v) == [];
    } else {
      assert Tie(lo, k, v) == [];
    }
  }

  /** Stability: for every key value, the entries with that key appear in the
      sorted sequence in the same order as in the input. */
  lemma {:induction false} SortIsStable(s: seq<Entry>, k: SortKey, v: real)
    ensures WithKey(SortDesc(s, k), k, v) == WithKey(s, k, v)
  {
    if |s| > 0 {
      SortIsStable(s[1..], k, v);
      InsertKeepsTies(s[0], SortDesc(s[1..], k), k, v);
    }
  }

  /** The entries of a given key in a prefix form a prefix of those of the whole. */
  lemma {:induction false} WithKeyOfPrefix(s: seq<Entry>, n: nat, k: SortKey, v: real)
    requires n <= |s|
    ensures WithKey(s[..n], k, v) <= WithKey(s, k, v)
  {
    if n > 0 {
      assert s[..n][1..] == s[1..][..n - 1];
      WithKeyOfPrefix(s[1..], n - 1, k, v);
    }
  }

  /** Cutting a sorted permutation of `ranking` after `n` entries keeps
      `n` entries, in sorted order, drawn from `ranking`, and what is cut
      off ranks no higher than what is kept. */
  lemma CutOff(ranking: seq<Entry>, sorted: seq<Entry>, n: nat, k: SortKey)
    requires SortedDesc(sorted, k) && multiset(sorted) == multiset(ranking) && n <= |ranking|
    ensures |sorted| == |ranking|
    ensures SortedDesc(sorted[..n], k)
    ensures multiset(sorted[..n]) <= multiset(ranking)
    ensures forall x, y :: x in multiset(ranking) - multiset(sorted[..n]) && y in sorted[..n] ==> Key(x, k) <= Key(y, k)
  {
    var top, low := sorted[..n], sorted[n..];
    assert |sorted| == |ranking| by { assert |multiset(sorted)| == |multiset(ranking)|; }
    assert multiset(ranking) == multiset(top) + multiset(low) by {
      assert sorted == top + low;
    }
    assert SortedDesc(top, k) by {
      forall i | 0 < i < |top| ensures Key(top[i - 1], k) >= Key(top[i], k) {
        assert top[i - 1] == sorted[i - 1] && top[i] == sorted[i];
      }
    }
    forall x, y | x in multiset(ranking) - multiset(top) && y in top ensures Key(x, k) <= Key(y, k) {
      assert x in multiset(low);
      var j :| n <= j < |sorted| && sorted[j] == x;
      var i :| 0 <= i < n && sorted[i] == y;
      SortedPairwise(sorted, k);
    }
  }

  /** A view: the first `TopN` entries of the stable descending sort. */
  function TopView(ranking: seq<Entry>, k: SortKey): (top: seq<Entry>)
    ensures |top| == if |ranking| < TopN then |ranking| else TopN
    ensures SortedDesc(top, k)
    ensures multiset(top) <= multiset(ranking)
    ensures forall x, y :: x in multiset(ranking) - multiset(top) && y in top ==> Key(x, k) <= Key(y, k)
  {
    var sorted := SortDesc(ranking, k);
    var n := if |ranking| < TopN then |ranking| else TopN;
    CutOff(ranking, sorted, n, k);
    sorted[..n]
  }

  /** A view holds only entries of the ranking data. */
  lemma TopViewDrawnFrom(ranking: seq<Entry>, k: SortKey)
    ensures forall e :: e in TopView(ranking, k) ==> e in ranking
  {
    var top := TopView(ranking, k);
    forall e | e in top ensures e in ranking {
      assert e in multiset(top);
    }
  }

  /** Ties at the cut are decided by the order of `ranking_data`: for every
      key value, the view's entries of that value are the first ones of that
      value in the ranking data. */
  lemma TopViewTies(ranking: seq<Entry>, k: SortKey, v: real)
    ensures WithKey(TopView(ranking, k), k, v) <= WithKey(ranking, k, v)
  {
    var sorted := SortDesc(ranking, k);
    var n := if |sorted| < TopN then |sorted| else TopN;
    WithKeyOfPrefix(sorted, n, k, v);
    SortIsStable(ranking, k, v);
  }
}
