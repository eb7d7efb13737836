/** The K-best sampler of malloclab/fcyc.c, with doubles modelled as reals. */
module Sampler {

  // ------------------------------------------------------------ sorting, as a reference

  ghost predicate Sorted(s: seq<real>) {
    forall i, j :: 0 <= i < j < |s| ==> s[i] <= s[j]
  }

  /** Puts `x` behind every element that is not greater. */
  ghost function Insert(s: seq<real>, x: real): (r: seq<real>)
    ensures |r| == |s| + 1
  {
    if s == [] || s[|s| - 1] <= x then s + [x]
    else Insert(s[..|s| - 1], x) + [s[|s| - 1]]
  }

  ghost function Sort(s: seq<real>): (r: seq<real>)
    ensures |r| == |s|
  {
    if s == [] then [] else Insert(Sort(s[..|s| - 1]), s[|s| - 1])
  }

  function Min(a: int, b: int): int {
    if a <= b then a else b
  }

  /** The k smallest of the samples, in ascending order; all of them when fewer. */
  ghost function Best(samples: seq<real>, k: nat): seq<real> {
    Sort(samples)[..Min(|samples|, k)]
  }

  lemma {:induction false} InsertIsSorted(s: seq<real>, x: real)
    requires Sorted(s)
    ensures Sorted(Insert(s, x))
    ensures multiset(Insert(s, x)) == multiset(s) + multiset{x}
    ensures forall i :: 0 <= i < |Insert(s, x)| ==> Insert(s, x)[i] == x || Insert(s, x)[i] in s
  {
    hide Sorted;
    if s == [] || s[|s| - 1] <= x {
      SortedMore(s, x);
    } else {
      var init, last := s[..|s| - 1], s[|s| - 1];
      assert s == init + [last];
      LastIsGreatest(s);
      InsertIsSorted(init, x);
      assert Insert(init, x)[|s| - 1] == x || Insert(init, x)[|s| - 1] in s;
      SortedMore(Insert(init, x), last);
    }
  }

  lemma SortedMore(s: seq<real>, x: real)
    requires Sorted(s) && (s != [] ==> s[|s| - 1] <= x)
    ensures Sorted(s + [x])
  {
  }

  lemma LastIsGreatest(s: seq<real>)
    requires Sorted(s) && s != []
    ensures Sorted(s[..|s| - 1]) && forall v :: v in s ==> v <= s[|s| - 1]
  {
  }

  /** `Sort` does sort: an ascending permutation of the samples. */
  lemma {:induction false} SortSorts(s: seq<real>)
    ensures Sorted(Sort(s)) && multiset(Sort(s)) == multiset(s)
  {
    if s != [] {
      var init, last := s[..|s| - 1], s[|s| - 1];
      assert s == init + [last];
      SortSorts(init);
      InsertIsSorted(Sort(init), last);
    }
  }

  /** Insertion, found from the place where it happens. */
  lemma {:induction false} InsertAtPlace(s: seq<real>, x: real, pos: nat)
    requires pos <= |s|
    requires forall i :: pos <= i < |s| ==> x < s[i]
    requires 0 < pos ==> s[pos - 1] <= x
    ensures Insert(s, x) == s[..pos] + [x] + s[pos..]
  {
    if pos == |s| {
      assert s[..pos] == s && s[pos..] == [];
    } else {
      var init := s[..|s| - 1];
      assert s[|s| - 1] > x && Insert(s, x) == Insert(init, x) + [s[|s| - 1]];
      InsertAtPlace(init, x, pos);
      assert init[..pos] == s[..pos] && init[pos..] + [s[|s| - 1]] == s[pos..];
    }
  }

  /** Only the first k places matter for the first k places after an insertion. */
  lemma {:induction false} InsertPrefix(s: seq<real>, x: real, k: nat)
    requires Sorted(s) && 1 <= k <= |s|
    ensures Insert(s, x)[..k] == if x < s[k - 1] then Insert(s[..k - 1], x) else s[..k]
  {
    var last := s[|s| - 1];
    if last <= x {
      assert (s + [x])[..k] == s[..k];
    } else {
      var init := s[..|s| - 1];
      if k == |s| {
        assert Insert(s, x)[..k] == Insert(init, x);
      } else {
        InsertPrefix(init, x, k);
        assert init[..k - 1] == s[..k - 1] && init[..k] == s[..k];
        assert Insert(s, x)[..k] == Insert(init, x)[..k];
      }
    }
  }

  /** What one more sample does to the k best. */
  lemma BestStep(samples: seq<real>, x: real, k: nat)
    requires 1 <= k
    ensures var b := Best(samples, k);
            Best(samples + [x], k) ==
            if |samples| < k then Insert(b, x)
            else if x < b[k - 1] then Insert(b[..k - 1], x)
            else b
  {
    var more := samples + [x];
    assert more[..|samples|] == samples;
    SortSorts(samples);
    var s := Sort(samples);
    assert Sort(more) == Insert(s, x);
    if |samples| < k {
      assert s[..|samples|] == s;
    } else {
      InsertPrefix(s, x, k);
      assert s[..k][..k - 1] == s[..k - 1];
    }
  }

  lemma BestIsSorted(samples: seq<real>, k: nat)
    ensures |Best(samples, k)| == Min(|samples|, k)
    ensures forall n :: 0 <= n <= |Best(samples, k)| ==> Sorted(Best(samples, k)[..n])
  {
    SortSorts(samples);
  }

  lemma InsertIntoEmpty(x: real)
    ensures Insert([], x) == [x]
  {
  }

  /** The first of the best is the minimum of all samples. */
  lemma BestIsLeast(samples: seq<real>, k: nat)
    requires 1 <= k && samples != []
    ensures var m := Best(samples, k)[0];
            m in samples && forall i :: 0 <= i < |samples| ==> m <= samples[i]
  {
    SortSorts(samples);
    var s := Sort(samples);
    assert s[0] in multiset(s);
    forall i | 0 <= i < |samples| ensures s[0] <= samples[i] {
      assert samples[i] in multiset(s);
    }
  }

  /** `Best` against its meaning, without sorting: ascending, taken from the samples (the
      rest being a multiset of its own), and nothing left out is smaller than anything kept. */
  lemma BestIsBest(samples: seq<real>, k: nat)
    ensures var b := Best(samples, k);
            |b| == Min(|samples|, k) && Sorted(b) && multiset(b) <= multiset(samples)
            && forall x, y :: x in b && y in multiset(samples) - multiset(b) ==> x <= y
  {
    SortSorts(samples);
    var s, n := Sort(samples), Min(|samples|, k);
    var b, rest := s[..n], s[n..];
    assert s == b + rest;
    assert multiset(samples) == multiset(b) + multiset(rest);
    forall x, y | x in b && y in multiset(samples) - multiset(b) ensures x <= y {
      assert y in multiset(rest);
      SplitSorted(s, n, x, y);
    }
  }

  lemma SplitSorted(s: seq<real>, n: nat, x: real, y: real)
    requires Sorted(s) && n <= |s| && x in s[..n] && y in s[n..]
    ensures x <= y
  {
  }

  /** The k-th smallest sample is within a factor 1 + epsilon of the smallest. */
  ghost predicate Converged(samples: seq<real>, k: nat, epsilon: real)
    requires 1 <= k
  {
    k <= |samples| && (1.0 + epsilon) * Sort(samples)[0] >= Sort(samples)[k - 1]
  }

  // ------------------------------------------------------------ what convergence means

  /** The places of the samples that are at most `x`. */
  ghost function AtMost(samples: seq<real>, x: real): (places: set<int>)
    ensures forall i :: i in places <==> 0 <= i < |samples| && samples[i] <= x
  {
    set i | 0 <= i < |samples| && samples[i] <= x
  }

  lemma AtMostOfMore(samples: seq<real>, y: real, x: real)
    ensures |AtMost(samples + [y], x)| == |AtMost(samples, x)| + if y <= x then 1 else 0
  {
    assert AtMost(samples + [y], x) == AtMost(samples, x) + if y <= x then {|samples|} else {};
  }

  lemma {:induction false} AtMostOfInsert(s: seq<real>, y: real, x: real)
    ensures |AtMost(Insert(s, y), x)| == |AtMost(s, x)| + if y <= x then 1 else 0
  {
    hide AtMost;
    if s == [] || s[|s| - 1] <= y {
      AtMostOfMore(s, y, x);
    } else {
      var init, last := s[..|s| - 1], s[|s| - 1];
      assert s == init + [last];
      AtMostOfInsert(init, y, x);
      AtMostOfMore(Insert(init, y), last, x);
      AtMostOfMore(init, last, x);
    }
  }

  lemma {:induction false} AtMostOfSort(s: seq<real>, x: real)
    ensures |AtMost(Sort(s), x)| == |AtMost(s, x)|
  {
    hide AtMost, Insert;
    if s == [] {
      assert Sort(s) == s;
    } else {
      var init, last := s[..|s| - 1], s[|s| - 1];
      assert s == init + [last];
      AtMostOfSort(init, x);
      AtMostOfInsert(Sort(init), last, x);
      AtMostOfMore(init, last, x);
    }
  }

  /** In ascending order the k-th is at most `x` exactly if at least k are. */
  lemma {:induction false} AtMostInOrder(s: seq<real>, k: nat, x: real)
    requires Sorted(s) && 1 <= k <= |s|
    ensures s[k - 1] <= x <==> k <= |AtMost(s, x)|
  {
    hide Sorted, AtMost;
    var init, last := s[..|s| - 1], s[|s| - 1];
    assert s == init + [last];
    LastIsGreatest(s);
    AtMostOfMore(init, last, x);
    NoMoreThanAll(init, x);
    if k < |s| {
      AtMostInOrder(init, k, x);
      assert s[k - 1] in s;
    } else if last <= x {
      assert forall i :: 0 <= i < |init| ==> init[i] in s;
      AllAtMost(init, x);
    }
  }

  lemma {:induction false} NoMoreThanAll(s: seq<real>, x: real)
    ensures |AtMost(s, x)| <= |s|
  {
    if s == [] {
      assert AtMost(s, x) == {};
    } else {
      NoMoreThanAll(s[..|s| - 1], x);
      assert s == s[..|s| - 1] + [s[|s| - 1]];
      AtMostOfMore(s[..|s| - 1], s[|s| - 1], x);
    }
  }

  lemma {:induction false} AllAtMost(s: seq<real>, x: real)
    requires forall i :: 0 <= i < |s| ==> s[i] <= x
    ensures |AtMost(s, x)| == |s|
  {
    if s == [] {
      assert AtMost(s, x) == {};
    } else {
      AllAtMost(s[..|s| - 1], x);
      assert s == s[..|s| - 1] + [s[|s| - 1]];
      AtMostOfMore(s[..|s| - 1], s[|s| - 1], x);
    }
  }

  /** The places of the samples within a factor 1 + epsilon of `least`. */
  ghost function Near(samples: seq<real>, epsilon: real, least: real): (places: set<int>)
    ensures forall i :: i in places <==> 0 <= i < |samples| && samples[i] <= (1.0 + epsilon) * least
  {
    AtMost(samples, (1.0 + epsilon) * least)
  }

  /** Convergence without sorting: at least k samples are within a factor 1 + epsilon of the least. */
  lemma ConvergedMeans(samples: seq<real>, k: nat, epsilon: real, least: real)
    requires 1 <= k && least in samples && forall i :: 0 <= i < |samples| ==> least <= samples[i]
    ensures Converged(samples, k, epsilon) <==> k <= |Near(samples, epsilon, least)|
  {
    hide AtMost, Sorted, Sort, Best;
    var x := (1.0 + epsilon) * least;
    SortSorts(samples);
    FirstIsLeast(samples, least);
    AtMostOfSort(samples, x);
    NoMoreThanAll(samples, x);
    if k <= |samples| {
      AtMostInOrder(Sort(samples), k, x);
    }
  }

  lemma FirstIsLeast(samples: seq<real>, least: real)
    requires least in samples && forall i :: 0 <= i < |samples| ==> least <= samples[i]
    ensures Sort(samples)[0] == least
  {
    hide Sort, Sorted;
    BestIsLeast(samples, 1);
  }

  // ------------------------------------------------------------ the code

  class Sampler {
    const kbest: int
    const maxsamples: int
    const epsilon: real
    /** Null whenever no sampling is under way. */
    var values: array?<real>
    var samplecount: int
    /** All samples since the last start. */
    ghost var history: seq<real>
    /** The arrays obtained from calloc and not yet freed. */
    ghost var live: set<array<real>>

    /** No array is leaked: only the one in `values` is still to be freed. */
    ghost predicate Tidy()
      reads this
    {
      live == if values == null then {} else {values}
    }

    ghost predicate Valid()
      reads this, values
    {
      Tidy() && values != null
      && 1 <= kbest == values.Length
      && samplecount == |history|
      && values[..Min(samplecount, kbest)] == Best(history, kbest)
    }

    constructor (kbest: int, maxsamples: int, epsilon: real)
      ensures Tidy() && values == null
      ensures this.kbest == kbest && this.maxsamples == maxsamples && this.epsilon == epsilon
    {
      this.kbest, this.maxsamples, this.epsilon := kbest, maxsamples, epsilon;
      values, samplecount := null, 0;
      history, live := [], {};
    }

    method InitSampler()
      requires 1 <= kbest && Tidy()
      modifies this
      ensures Valid() && fresh(values) && history == []
    {
      if values != null {
        live := live - {values};
      }
      values := new real[kbest](_ => 0.0);
      live := live + {values};
      samplecount, history := 0, [];
    }

    /** Sinks the last of the sorted values, at `start`, to its place. */
    method Sink(start: int)
      requires values != null && 0 <= start < values.Length
      requires Sorted(values[..start])
      modifies values
      ensures values[..start + 1] == Insert(old(values[..start]), old(values[start]))
      ensures values[start + 1..] == old(values[start + 1..])
    {
      ghost var s, x := values[..start], values[start];
      var pos := start;
      while pos > 0 && values[pos - 1] > values[pos]
        invariant 0 <= pos <= start
        invariant values[..start + 1] == s[..pos] + [x] + s[pos..]
        invariant forall i :: pos <= i < start ==> x < s[i]
        invariant values[start + 1..] == old(values[start + 1..])
      {
        ghost var before := values[..start + 1];
        assert before[pos] == x && before[pos - 1] == s[pos - 1];
        values[pos - 1], values[pos] := values[pos], values[pos - 1];
        assert values[..start + 1] == before[pos - 1 := before[pos]][pos := before[pos - 1]];
        pos := pos - 1;
      }
      assert values[..start + 1][pos] == x;
      assert pos > 0 ==> values[..start + 1][pos - 1] == s[pos - 1];
      InsertAtPlace(s, x, pos);
    }

    method AddSample(val: real)
      requires Valid()
      modifies this`samplecount, this`history, values
      ensures Valid() && history == old(history) + [val]
    {
      hide Best, Insert, Sorted, Sort;
      BestStep(history, val, kbest);
      BestIsSorted(history, kbest);
      InsertIntoEmpty(values[0]);
      ghost var best := values[..Min(samplecount, kbest)];
      assert forall n :: 0 <= n <= |best| ==> Sorted(best[..n]);
      var pos := 0;
      if samplecount < kbest {
        pos := samplecount;
        values[pos] := val;
        assert values[..pos] == best == best[..pos];
      } else if val < values[kbest - 1] {
        pos := kbest - 1;
        values[pos] := val;
        assert values[..pos] == best[..pos];
      } else {
        assert values[..pos] == best[..pos];
        assert best == [values[0]] + values[1..];
      }
      history := history + [val];
      samplecount := samplecount + 1;
      Sink(pos);
      assert pos + 1 == Min(samplecount, kbest) || values[..] == values[..1] + values[1..];
    }

    method HasConverged() returns (b: bool)
      requires Valid()
      ensures b <==> Converged(history, kbest, epsilon)
      ensures forall least ::
                (least in history && forall i :: 0 <= i < |history| ==> least <= history[i]) ==>
                (b <==> kbest <= |Near(history, epsilon, least)|)
    {
      hide Near;
      assert Best(history, kbest) == Sort(history)[..Min(samplecount, kbest)];
      b := samplecount >= kbest && (1.0 + epsilon) * values[0] >= values[kbest - 1];
      if samplecount >= kbest {
        assert values[0] == values[..kbest][0] && values[kbest - 1] == values[..kbest][kbest - 1];
      }
      forall least | least in history && forall i :: 0 <= i < |history| ==> least <= history[i]
        ensures b <==> kbest <= |Near(history, epsilon, least)|
      {
        ConvergedMeans(history, kbest, epsilon, least);
      }
    }

    /** Sampling may stop after these samples. */
    ghost predicate Done(samples: seq<real>)
      requires 1 <= kbest
    {
      Converged(samples, kbest, epsilon) || maxsamples <= |samples|
    }

    lemma DoneMeans(samples: seq<real>, least: real)
      requires 1 <= kbest && least in samples && forall i :: 0 <= i < |samples| ==> least <= samples[i]
      ensures Done(samples) <==> maxsamples <= |samples| || kbest <= |Near(samples, epsilon, least)|
    {
      hide Converged, Near;
      ConvergedMeans(samples, kbest, epsilon, least);
    }

    /** The measuring loop. `clock` gives the successive running times; the loop takes the
        shortest nonempty prefix of them that it may stop after, and returns its minimum. */
    method Fcyc(clock: nat -> real) returns (result: real)
      requires 1 <= kbest && Tidy()
      modifies this
      ensures values == null && live == {}
      ensures forall i :: 0 <= i < |history| ==> history[i] == clock(i)
      ensures 1 <= |history| <= (if maxsamples < 1 then 1 else maxsamples)
      ensures Done(history) && forall n :: 1 <= n < |history| ==> !Done(history[..n])
      ensures maxsamples <= |history| || kbest <= |Near(history, epsilon, result)|
      ensures forall n, least ::
                (1 <= n < |history| && least in history[..n] && forall i :: 0 <= i < n ==> least <= history[i]) ==>
                n < maxsamples && |Near(history[..n], epsilon, least)| < kbest
      ensures result in history && forall i :: 0 <= i < |history| ==> result <= history[i]
    {
      hide Sort, Converged, Done, Near;
      InitSampler();
      var stop := false;
      while !stop
        invariant Valid() && fresh(values)
        invariant forall i :: 0 <= i < |history| ==> history[i] == clock(i)
        invariant |history| == 0 ==> !stop
        invariant |history| <= (if maxsamples < 1 then 1 else maxsamples)
        invariant !stop && 1 <= |history| ==> |history| < maxsamples
        invariant forall n :: 1 <= n < |history| ==> !Done(history[..n])
        invariant |history| > 0 ==> (stop <==> Done(history))
        decreases (if maxsamples < 1 then 1 else maxsamples) - |history|, !stop
      {
        ghost var before := history;
        var cyc := clock(samplecount);
        stop := Measure(cyc);
        assert forall n :: 1 <= n <= |before| ==> history[..n] == before[..n];
        assert before[..|before|] == before;
      }
      BestIsLeast(history, kbest);
      assert values[..Min(samplecount, kbest)][0] == values[0];
      result := values[0];
      DoneMeans(history, result);
      forall n, least | 1 <= n < |history| && least in history[..n] && forall i :: 0 <= i < n ==> least <= history[i]
        ensures n < maxsamples && |Near(history[..n], epsilon, least)| < kbest
      {
        DoneMeans(history[..n], least);
        assert !Done(history[..n]);
      }
      live := live - {values};
      values := null;
    }

    /** One turn of the loop: add the sample, then decide whether to stop. */
    method Measure(cyc: real) returns (stop: bool)
      requires Valid()
      modifies this`samplecount, this`history, values
      ensures Valid() && history == old(history) + [cyc]
      ensures stop <==> Done(history)
      ensures stop || |history| < maxsamples
    {
      AddSample(cyc);
      var converged := HasConverged();
      stop := !(!converged && samplecount < maxsamples);
    }
  }
}
