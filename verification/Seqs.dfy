/**
 Facts about sequences, mostly those without duplicates.
 */
module Seqs {

  ghost predicate Distinct<T>(s: seq<T>)
  {
    forall i, j :: 0 <= i < j < |s| ==> s[i] != s[j]
  }

  /** Distinct numbers below `count` number at most `count`. */
  lemma {:induction false} DistinctFits(s: seq<nat>, count: nat)
    requires Distinct(s) && forall i :: 0 <= i < |s| ==> s[i] < count
    ensures |s| <= count
    decreases count
  {
    if s != [] {
      assert s[0] < count;
      var top := count - 1;
      if top in s {
        var k :| 0 <= k < |s| && s[k] == top;
        DistinctFits(s[..k] + s[k + 1..], count - 1);
      } else {
        forall i | 0 <= i < |s| ensures s[i] < count - 1 {
          assert s[i] in s;
        }
        DistinctFits(s, count - 1);
      }
    }
  }

  /** Distinct numbers below their own count are all the numbers below it. */
  lemma Pigeonhole(s: seq<nat>, v: nat)
    requires Distinct(s) && forall i :: 0 <= i < |s| ==> s[i] < |s|
    requires v < |s|
    ensures v in s
  {
    if v !in s {
      DistinctFits(s + [v], |s|);
    }
  }

  lemma Regroup<T>(a: seq<T>, b: seq<T>, c: seq<T>)
    ensures a + (b + c) == (a + b) + c
  {
  }
}
