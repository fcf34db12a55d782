/** What rejection sampling of mine positions produces. Both drafts draw a
    random index over and over, keep it when no mine is there yet and draw again
    otherwise, until the wanted number of distinct indices holds a mine. With the
    random numbers given as a finite sequence of draws, the mines end up exactly
    at the first distinct values of that sequence. */
module Sampling {

  import Grid

  predicate Distinct(s: seq<int>)
  {
    forall i, j :: 0 <= i < j < |s| ==> s[i] != s[j]
  }

  /** The distinct values of `s`, in the order in which they first appear. */
  function Dedup(s: seq<int>): (d: seq<int>)
    ensures Distinct(d) && |d| <= |s|
    ensures forall x :: x in d <==> x in s
  {
    if s == [] then []
    else
      var d := Dedup(s[..|s| - 1]);
      if s[|s| - 1] in d then d else d + [s[|s| - 1]]
  }

  /** Drawing one more value extends the distinct values by it exactly when it is new. */
  lemma DedupSnoc(s: seq<int>, x: int)
    ensures Dedup(s + [x]) == if x in s then Dedup(s) else Dedup(s) + [x]
  {
    assert (s + [x])[..|s|] == s;
  }

  /** A list without repetitions has as many values as entries. */
  lemma {:induction false} DistinctCard(d: seq<int>)
    requires Distinct(d)
    ensures |set x | x in d| == |d|
  {
    if d != [] {
      var init := d[..|d| - 1];
      assert Distinct(init);
      DistinctCard(init);
      assert (set x | x in d) == (set x | x in init) + {d[|d| - 1]};
      assert d[|d| - 1] !in init;
    }
  }

  /** Pigeonhole: a list of distinct values drawn from 0..n-1 has at most n entries. */
  lemma {:induction false} DistinctBound(d: seq<int>, n: nat)
    requires Distinct(d)
    requires forall x :: x in d ==> 0 <= x < n
    ensures |d| <= n
  {
    DistinctCard(d);
    Grid.SubsetCard((set x | x in d), Grid.Cells(n));
  }

  /** The distinct values of a prefix of the draws are a prefix of the distinct
      values of all of them: later draws only add new values at the end. */
  lemma {:induction false} DedupPrefix(s: seq<int>, p: nat)
    requires p <= |s|
    ensures |Dedup(s[..p])| <= |Dedup(s)|
    ensures Dedup(s)[..|Dedup(s[..p])|] == Dedup(s[..p])
    decreases |s| - p
  {
    if p == |s| {
      assert s[..p] == s;
    } else {
      var init := s[..|s| - 1];
      DedupPrefix(init, p);
      assert init[..p] == s[..p];
      assert s == init + [s[|s| - 1]];
      DedupSnoc(init, s[|s| - 1]);
    }
  }

  /** Every draw from `lo` up to `hi` repeats an earlier draw of the stream,
      so a rejection loop reading them finds each one taken. */
  predicate Repeats(draws: seq<int>, lo: nat, hi: nat)
    requires lo <= hi <= |draws|
    decreases hi
  {
    lo == hi || (Repeats(draws, lo, hi - 1) && draws[hi - 1] in draws[..hi - 1])
  }

  /** `Repeats` says of each draw in the range that it repeats an earlier one. */
  lemma {:induction false} RepeatsAll(draws: seq<int>, lo: nat, hi: nat, t: nat)
    requires lo <= t < hi <= |draws| && Repeats(draws, lo, hi)
    ensures draws[t] in draws[..t]
    decreases hi
  {
    if t < hi - 1 {
      RepeatsAll(draws, lo, hi - 1, t);
    }
  }

  /** The squares holding a mine once mines have been laid one after the other,
      each at the first draw that finds its square empty: the first `count`
      distinct draws, or every distinct draw when the draws run out first. */
  function Chosen(draws: seq<int>, count: nat): (c: seq<int>)
    ensures Distinct(c) && |c| <= count
    ensures forall x :: x in c ==> x in draws
  {
    var d := Dedup(draws);
    d[..if count < |d| then count else |d|]
  }

  /** The draws hold `count` distinct values, so that every mine gets laid. */
  predicate Enough(draws: seq<int>, count: nat)
  {
    |Dedup(draws)| >= count
  }

  /** Where a sampling loop stops: either `count` distinct values have been drawn,
      or the draws ran out with fewer. Either way the values drawn so far are the
      chosen ones, and the loop finished exactly when there were enough draws. */
  lemma StopsAt(draws: seq<int>, pos: nat, count: nat, complete: bool)
    requires pos <= |draws|
    requires complete ==> |Dedup(draws[..pos])| == count
    requires !complete ==> pos == |draws| && |Dedup(draws[..pos])| < count
    ensures Dedup(draws[..pos]) == Chosen(draws, count)
    ensures complete <==> Enough(draws, count)
  {
    DedupPrefix(draws, pos);
    assert draws[..|draws|] == draws;
  }

  /** With enough draws exactly `count` squares get a mine; otherwise every
      square drawn at all gets one. */
  lemma ChosenSize(draws: seq<int>, count: nat)
    ensures Enough(draws, count) ==> |Chosen(draws, count)| == count
    ensures Enough(draws, count) ==> |set x | x in Chosen(draws, count)| == count
    ensures !Enough(draws, count) ==> forall x :: x in draws ==> x in Chosen(draws, count)
  {
    DistinctCard(Chosen(draws, count));
  }

  /** Pigeonhole: draws from 0..n-1 never hold more than n distinct values, so
      asking for more than n mines never finishes. */
  lemma NeverEnoughWhenOverfull(draws: seq<int>, count: nat, n: nat)
    requires forall t :: 0 <= t < |draws| ==> 0 <= draws[t] < n
    requires count > n
    ensures !Enough(draws, count)
  {
    DistinctBound(Dedup(draws), n);
  }
}
