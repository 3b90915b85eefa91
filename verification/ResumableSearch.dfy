/**
  Searching a list again from the previous result, as both the archive (ptp/store.cpp) and the
  file collection (ptp/collect.cpp) do. A place in the list stands for a pointer to its entry,
  and -1 for NULL.
 */
module ResumableSearch {

  /** The first wanted place after `from`, or -1. */
  function Next<T>(s: seq<T>, wanted: T -> bool, from: int): (k: int)
    requires -1 <= from
    ensures k == -1 || (from < k < |s| && wanted(s[k]))
    ensures forall i :: from < i < (if k == -1 then |s| else k) ==> !wanted(s[i])
    decreases |s| - from
  {
    if from + 1 >= |s| then -1
    else if wanted(s[from + 1]) then from + 1
    else Next(s, wanted, from + 1)
  }

  /** Two searches with the same outcome are the same. */
  lemma NextIsUnique<T>(s: seq<T>, wanted: T -> bool, from: int, k: int)
    requires -1 <= from
    requires k == -1 || (from < k < |s| && wanted(s[k]))
    requires forall i :: from < i < (if k == -1 then |s| else k) ==> !wanted(s[i])
    ensures k == Next(s, wanted, from)
  {
  }

  /** All results of searching again and again until there is none. */
  function Walk<T>(s: seq<T>, wanted: T -> bool, from: int): seq<int>
    requires -1 <= from
    decreases |s| - from
  {
    var k := Next(s, wanted, from);
    if k == -1 then [] else [k] + Walk(s, wanted, k)
  }

  lemma {:induction false} WalkFinds<T>(s: seq<T>, wanted: T -> bool, from: int, k: int)
    requires -1 <= from
    ensures k in Walk(s, wanted, from) <==> from < k < |s| && wanted(s[k])
    decreases |s| - from
  {
    var first := Next(s, wanted, from);
    if first != -1 {
      WalkFinds(s, wanted, first, k);
    }
  }

  predicate Ascending(r: seq<int>) {
    forall i, j :: 0 <= i < j < |r| ==> r[i] < r[j]
  }

  lemma AscendingCons(k: int, r: seq<int>)
    requires Ascending(r) && forall x | x in r :: k < x
    ensures Ascending([k] + r)
  {
    forall i, j | 0 <= i < j < |[k] + r| ensures ([k] + r)[i] < ([k] + r)[j] {
      assert r[j - 1] in r;
    }
  }

  /** Every wanted entry is found once, in list order. */
  lemma {:induction false} WalkVisitsEach<T>(s: seq<T>, wanted: T -> bool, from: int)
    requires -1 <= from
    ensures forall k :: k in Walk(s, wanted, from) <==> from < k < |s| && wanted(s[k])
    ensures Ascending(Walk(s, wanted, from))
    decreases |s| - from
  {
    forall k ensures k in Walk(s, wanted, from) <==> from < k < |s| && wanted(s[k]) {
      WalkFinds(s, wanted, from, k);
    }
    var first := Next(s, wanted, from);
    if first != -1 {
      WalkVisitsEach(s, wanted, first);
      AscendingCons(first, Walk(s, wanted, first));
    }
  }
}
