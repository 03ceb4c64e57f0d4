/** Facts about index sequences, used to say that one sequence is an
    order-preserving selection from another. */
module Indexing {
  /** The positions in `idx` are strictly increasing. */
  ghost predicate StrictlyIncreasing(idx: seq<nat>)
  {
    forall i, j :: 0 <= i < j < |idx| ==> idx[i] < idx[j]
  }

  /** `r` is the selection of `s` at the positions `idx`, in that order. */
  ghost predicate SelectedAt<T>(r: seq<T>, s: seq<T>, idx: seq<nat>)
  {
    && |r| == |idx|
    && StrictlyIncreasing(idx)
    && (forall i :: 0 <= i < |idx| ==> idx[i] < |s| && r[i] == s[idx[i]])
  }

  /** Appending a position beyond every other keeps positions increasing. */
  lemma IncreasingAppend(idx: seq<nat>, p: nat)
    requires StrictlyIncreasing(idx)
    requires forall i :: 0 <= i < |idx| ==> idx[i] < p
    ensures StrictlyIncreasing(idx + [p])
  {
    var longer := idx + [p];
    forall i, j | 0 <= i < j < |longer| ensures longer[i] < longer[j] {
      if j < |idx| {
        assert longer[i] == idx[i] && longer[j] == idx[j];
      }
    }
  }

  /** Appending a row taken from beyond every selected position extends a
      selection. */
  lemma SelectedAppend<T>(r: seq<T>, s: seq<T>, idx: seq<nat>, p: nat)
    requires SelectedAt(r, s, idx)
    requires p < |s|
    requires forall i :: 0 <= i < |idx| ==> idx[i] < p
    ensures SelectedAt(r + [s[p]], s, idx + [p])
  {
    IncreasingAppend(idx, p);
    var r' := r + [s[p]];
    var idx' := idx + [p];
    forall i | 0 <= i < |idx'| ensures idx'[i] < |s| && r'[i] == s[idx'[i]] {
      if i < |idx| {
        assert idx'[i] == idx[i] && r'[i] == r[i];
      }
    }
  }

  /** A selection from a prefix is a selection from the whole sequence. */
  lemma SelectedFromPrefix<T>(r: seq<T>, s: seq<T>, idx: seq<nat>, t: seq<T>)
    requires SelectedAt(r, s, idx) && s <= t
    ensures SelectedAt(r, t, idx)
  {
    forall i | 0 <= i < |idx| ensures idx[i] < |t| && r[i] == t[idx[i]] {
      assert t[idx[i]] == s[idx[i]];
    }
  }
}
