/** The part of `itertools.combinations` that `find_matching_subsets` relies on:
    `combinations(enumerate(values), r)` yields the r-element index tuples of
    `range(len(values))` in lexicographic order. */
module Combinations {
  import opened Puzzle

  /** The r-element tuples of `range(lo, n)`, each in increasing order, listed
      lexicographically: those that start with `lo` come first. */
  function Comb(lo: nat, n: nat, r: nat): seq<seq<int>>
    decreases n - lo
  {
    if r == 0 then [[]]
    else if lo >= n then []
    else Prepend(lo, Comb(lo + 1, n, r - 1)) + Comb(lo + 1, n, r)
  }

  function Prepend(x: int, cs: seq<seq<int>>): seq<seq<int>>
  {
    seq(|cs|, k requires 0 <= k < |cs| => [x] + cs[k])
  }

  /** `set(indices)` */
  function SetOf(c: seq<int>): set<int>
  {
    set x | x in c
  }

  lemma SetOfCons(c: seq<int>)
    requires |c| > 0
    ensures SetOf(c) == {c[0]} + SetOf(c[1..])
  {
    assert c == [c[0]] + c[1..];
  }

  /** `c` lists distinct indices of `[lo, n)` in increasing order. */
  predicate Increasing(c: seq<int>, lo: int, n: int)
  {
    (forall k :: 0 <= k < |c| ==> lo <= c[k] < n) &&
    (forall k, l :: 0 <= k < l < |c| ==> c[k] < c[l])
  }

  /** `[values[i] for i in c]`: the `nums` half of `zip(*combo)`. */
  function ComboValues(values: seq<int>, c: seq<int>): (nums: seq<int>)
    requires forall k :: 0 <= k < |c| ==> 0 <= c[k] < |values|
  {
    seq(|c|, k requires 0 <= k < |c| => values[c[k]])
  }

  /** Every tuple has exactly r indices, increasing, inside `[lo, n)`. */
  lemma {:induction false} CombShape(lo: nat, n: nat, r: nat)
    ensures forall k :: 0 <= k < |Comb(lo, n, r)| ==> |Comb(lo, n, r)[k]| == r && Increasing(Comb(lo, n, r)[k], lo, n)
    decreases n - lo
  {
    if r > 0 && lo < n {
      CombShape(lo + 1, n, r - 1);
      CombShape(lo + 1, n, r);
      var with := Prepend(lo, Comb(lo + 1, n, r - 1));
      var without := Comb(lo + 1, n, r);
      forall k | 0 <= k < |with| + |without|
        ensures |(with + without)[k]| == r && Increasing((with + without)[k], lo, n)
      {
        if k < |with| {
          var tail := Comb(lo + 1, n, r - 1)[k];
          assert (with + without)[k] == [lo] + tail;
          assert Increasing(tail, lo + 1, n);
        } else {
          assert (with + without)[k] == without[k - |with|];
        }
      }
    }
  }

  /** There is no r-element tuple of a range shorter than r. */
  lemma {:induction false} CombTooFew(lo: nat, n: nat, r: nat)
    requires lo <= n && r > n - lo
    ensures Comb(lo, n, r) == []
    decreases n - lo
  {
    if r > 0 && lo < n {
      CombTooFew(lo + 1, n, r - 1);
      CombTooFew(lo + 1, n, r);
    }
  }

  lemma {:induction false} IncreasingSetSize(c: seq<int>, lo: int, n: int)
    requires Increasing(c, lo, n)
    ensures |SetOf(c)| == |c|
    decreases |c|
  {
    if |c| > 0 {
      var tail := c[1..];
      assert Increasing(tail, lo, n);
      IncreasingSetSize(tail, lo, n);
      assert SetOf(c) == {c[0]} + SetOf(tail);
      assert c[0] !in SetOf(tail);
    }
  }

  /** The tail of an increasing tuple lies above its first index. */
  lemma IncreasingTail(c: seq<int>, lo: int, n: int)
    requires Increasing(c, lo, n) && |c| > 0
    ensures Increasing(c[1..], c[0] + 1, n)
  {
  }

  /** An increasing tuple inside `[lo, n)` has at most `n - lo` entries. */
  lemma {:induction false} IncreasingBound(c: seq<int>, lo: int, n: int)
    requires Increasing(c, lo, n)
    ensures c == [] || |c| <= n - lo
    decreases |c|
  {
    if |c| > 0 {
      var tail := c[1..];
      assert Increasing(tail, c[0] + 1, n);
      IncreasingBound(tail, c[0] + 1, n);
    }
  }

  /** The tuples of `Comb(lo, n, r)` that start with `lo`, then those that do not. */
  lemma CombSplit(lo: nat, n: nat, r: nat)
    requires r > 0 && lo < n
    ensures |Comb(lo, n, r)| == |Comb(lo + 1, n, r - 1)| + |Comb(lo + 1, n, r)|
    ensures forall k :: 0 <= k < |Comb(lo + 1, n, r - 1)| ==>
              Comb(lo, n, r)[k] == [lo] + Comb(lo + 1, n, r - 1)[k]
    ensures forall k :: |Comb(lo + 1, n, r - 1)| <= k < |Comb(lo, n, r)| ==>
              Comb(lo, n, r)[k] == Comb(lo + 1, n, r)[k - |Comb(lo + 1, n, r - 1)|]
  {
    var shorter := Comb(lo + 1, n, r - 1);
    var with := Prepend(lo, shorter);
    var without := Comb(lo + 1, n, r);
    assert Comb(lo, n, r) == with + without;
    forall k | 0 <= k < |shorter|
      ensures (with + without)[k] == [lo] + shorter[k]
    {
      assert (with + without)[k] == with[k];
    }
    forall k | |shorter| <= k < |with| + |without|
      ensures (with + without)[k] == without[k - |shorter|]
    {
    }
  }

  /** A tuple of `Comb(lo + 1, n, r - 1)` with `lo` put in front is listed by `Comb(lo, n, r)`. */
  lemma CombWithLow(lo: nat, n: nat, r: nat, k: nat)
    requires r > 0 && lo < n && k < |Comb(lo + 1, n, r - 1)|
    ensures k < |Comb(lo, n, r)| && SetOf(Comb(lo, n, r)[k]) == {lo} + SetOf(Comb(lo + 1, n, r - 1)[k])
  {
    CombSplit(lo, n, r);
    var c := Comb(lo, n, r)[k];
    SetOfCons(c);
    assert c[1..] == Comb(lo + 1, n, r - 1)[k];
  }

  /** A tuple of `Comb(lo + 1, n, r)` is listed by `Comb(lo, n, r)` after those that start with `lo`. */
  lemma CombWithoutLow(lo: nat, n: nat, r: nat, k: nat)
    requires r > 0 && lo < n && k < |Comb(lo + 1, n, r)|
    ensures |Comb(lo + 1, n, r - 1)| + k < |Comb(lo, n, r)|
    ensures Comb(lo, n, r)[|Comb(lo + 1, n, r - 1)| + k] == Comb(lo + 1, n, r)[k]
  {
    CombSplit(lo, n, r);
  }

  /** Every r-element subset of `[lo, n)` is the set of some tuple that `Comb` lists. */
  lemma {:induction false} CombComplete(lo: nat, n: nat, r: nat, s: set<int>) returns (k: nat)
    requires forall x :: x in s ==> lo <= x < n
    requires |s| == r
    ensures k < |Comb(lo, n, r)| && SetOf(Comb(lo, n, r)[k]) == s
    decreases n - lo, 1
  {
    if r == 0 {
      k := 0;
      assert SetOf([]) == {};
    } else if lo in s {
      k := CombCompleteWithLow(lo, n, r, s);
    } else {
      k := CombCompleteWithoutLow(lo, n, r, s);
    }
  }

  lemma {:induction false} CombCompleteWithLow(lo: nat, n: nat, r: nat, s: set<int>) returns (k: nat)
    requires forall x :: x in s ==> lo <= x < n
    requires |s| == r && lo in s
    ensures k < |Comb(lo, n, r)| && SetOf(Comb(lo, n, r)[k]) == s
    decreases n - lo, 0
  {
    var rest := s - {lo};
    RemoveOne(s, lo);
    k := CombComplete(lo + 1, n, r - 1, rest);
    CombWithLow(lo, n, r, k);
  }

  lemma {:induction false} CombCompleteWithoutLow(lo: nat, n: nat, r: nat, s: set<int>) returns (k: nat)
    requires forall x :: x in s ==> lo <= x < n
    requires |s| == r > 0 && lo !in s
    ensures k < |Comb(lo, n, r)| && SetOf(Comb(lo, n, r)[k]) == s
    decreases n - lo, 0
  {
    RangeNotEmpty(s, lo, n);
    var k' := CombComplete(lo + 1, n, r, s);
    CombWithoutLow(lo, n, r, k');
    k := |Comb(lo + 1, n, r - 1)| + k';
    assert Comb(lo, n, r)[k] == Comb(lo + 1, n, r)[k'];
  }

  lemma RemoveOne(s: set<int>, x: int)
    requires x in s
    ensures |s - {x}| == |s| - 1 && {x} + (s - {x}) == s
  {
  }

  /** A non-empty set inside `[lo, n)` makes the range non-empty. */
  lemma RangeNotEmpty(s: set<int>, lo: int, n: int)
    requires |s| > 0 && forall x :: x in s ==> lo <= x < n
    ensures lo < n
  {
    var x := Element(s);
  }

  /** No two tuples that `Comb` lists have the same set of indices. */
  lemma {:induction false} CombDistinct(lo: nat, n: nat, r: nat)
    ensures forall k, l :: 0 <= k < l < |Comb(lo, n, r)| ==> SetOf(Comb(lo, n, r)[k]) != SetOf(Comb(lo, n, r)[l])
    decreases n - lo
  {
    if r > 0 && lo < n {
      CombDistinct(lo + 1, n, r - 1);
      CombDistinct(lo + 1, n, r);
      CombShape(lo + 1, n, r - 1);
      CombShape(lo + 1, n, r);
      var shorter := Comb(lo + 1, n, r - 1);
      var with := Prepend(lo, shorter);
      var without := Comb(lo + 1, n, r);
      var all := with + without;
      forall k, l | 0 <= k < l < |all|
        ensures SetOf(all[k]) != SetOf(all[l])
      {
        if l < |with| {
          assert SetOf(all[k]) == {lo} + SetOf(shorter[k]);
          assert SetOf(all[l]) == {lo} + SetOf(shorter[l]);
          assert lo !in SetOf(shorter[k]) && lo !in SetOf(shorter[l]);
          assert SetOf(all[k]) - {lo} == SetOf(shorter[k]);
          assert SetOf(all[l]) - {lo} == SetOf(shorter[l]);
        } else if k < |with| {
          assert lo in SetOf(all[k]);
          assert all[l] == without[l - |with|];
          assert lo !in SetOf(all[l]);
        } else {
          assert all[k] == without[k - |with|];
          assert all[l] == without[l - |with|];
        }
      }
    }
  }

  /** The values a combination names are the values its indicator row marks. */
  lemma {:induction false} ComboValuesArePicked(values: seq<int>, c: seq<int>, lo: nat)
    requires lo <= |values| && Increasing(c, lo, |values|)
    ensures Picked(values, Indicator(SetOf(c), |values|), lo) == ComboValues(values, c)
    decreases |values| - lo
  {
    var n := |values|;
    if lo == n {
      IncreasingBound(c, lo, n);
    } else if |c| > 0 && c[0] == lo {
      IncreasingTail(c, lo, n);
      ComboValuesArePicked(values, c[1..], lo + 1);
      PickFirst(values, c, lo);
    } else {
      SkipFirst(values, c, lo);
      ComboValuesArePicked(values, c, lo + 1);
    }
  }

  lemma PickFirst(values: seq<int>, c: seq<int>, lo: nat)
    requires lo < |values| && Increasing(c, lo, |values|) && |c| > 0 && c[0] == lo
    ensures Picked(values, Indicator(SetOf(c), |values|), lo)
         == [values[lo]] + Picked(values, Indicator(SetOf(c[1..]), |values|), lo + 1)
    ensures ComboValues(values, c) == [values[lo]] + ComboValues(values, c[1..])
  {
    var n := |values|;
    SetOfCons(c);
    IndicatorTail(c, n, lo);
    assert c[0] in SetOf(c);
    PickedHead(values, Indicator(SetOf(c), n), Indicator(SetOf(c[1..]), n), lo);
    ComboValuesCons(values, c);
  }

  /** Past the first index, a tuple and its tail mark the same positions. */
  lemma IndicatorTail(c: seq<int>, n: nat, lo: nat)
    requires |c| > 0 && c[0] == lo && SetOf(c) == {c[0]} + SetOf(c[1..])
    ensures forall j :: lo + 1 <= j < n ==> Indicator(SetOf(c), n)[j] == Indicator(SetOf(c[1..]), n)[j]
  {
  }

  lemma ComboValuesCons(values: seq<int>, c: seq<int>)
    requires |c| > 0 && forall k :: 0 <= k < |c| ==> 0 <= c[k] < |values|
    ensures ComboValues(values, c) == [values[c[0]]] + ComboValues(values, c[1..])
  {
    var whole := ComboValues(values, c);
    var rest := ComboValues(values, c[1..]);
    assert |whole| == |[values[c[0]]] + rest|;
    forall k | 0 <= k < |whole|
      ensures whole[k] == ([values[c[0]]] + rest)[k]
    {
      if k > 0 {
        assert c[1..][k - 1] == c[k];
      }
    }
  }

  lemma SkipFirst(values: seq<int>, c: seq<int>, lo: nat)
    requires lo < |values| && Increasing(c, lo, |values|) && !(|c| > 0 && c[0] == lo)
    ensures Increasing(c, lo + 1, |values|)
    ensures Picked(values, Indicator(SetOf(c), |values|), lo) == Picked(values, Indicator(SetOf(c), |values|), lo + 1)
  {
    assert forall k :: 0 <= k < |c| ==> c[k] > lo;
    assert lo !in SetOf(c);
  }
}
