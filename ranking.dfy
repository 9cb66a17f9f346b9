/** The ranking step of `CalculateSettlementsAsync`: the ledger's members split into creditors (positive
    balance, largest first) and debtors (negative balance, most indebted
    first).  LINQ's `Where` keeps the dictionary's order and `OrderBy` /
    `OrderByDescending` are stable sorts; both are modelled as functions. */
module Ranking {
  import opened Balances

  /** The key a list is sorted on: the balance, negated for a descending sort. */
  function Rank(bal: map<string, real>, descending: bool, m: string): real {
    if descending then -Get(bal, m) else Get(bal, m)
  }

  predicate Ordered(ms: seq<string>, bal: map<string, real>, descending: bool) {
    forall i, j :: 0 <= i < j < |ms| ==> Rank(bal, descending, ms[i]) <= Rank(bal, descending, ms[j])
  }

  /** Places `x` after every element of the sorted `ys` that does not rank
      strictly above it, so that equal keys keep their order. */
  function Insert(x: string, ys: seq<string>, bal: map<string, real>, descending: bool): (r: seq<string>)
    ensures multiset(r) == multiset(ys) + multiset{x}
  {
    if ys == [] then [x]
    else
      var last := ys[|ys| - 1];
      if Rank(bal, descending, x) < Rank(bal, descending, last) then
        assert ys == ys[..|ys| - 1] + [last];
        Insert(x, ys[..|ys| - 1], bal, descending) + [last]
      else ys + [x]
  }

  /** Stable insertion sort on the balance. */
  function Sort(ms: seq<string>, bal: map<string, real>, descending: bool): (r: seq<string>)
    ensures multiset(r) == multiset(ms)
  {
    if ms == [] then []
    else
      assert ms == ms[..|ms| - 1] + [ms[|ms| - 1]];
      Insert(ms[|ms| - 1], Sort(ms[..|ms| - 1], bal, descending), bal, descending)
  }

  /** The filter: a positive balance for creditors, a negative one for debtors. */
  predicate Selected(bal: map<string, real>, positive: bool, m: string) {
    if positive then Get(bal, m) > 0.0 else Get(bal, m) < 0.0
  }

  /** `Where(mb => mb.Value > 0)` or `Where(mb => mb.Value < 0)`. */
  function Filter(ms: seq<string>, bal: map<string, real>, positive: bool): (r: seq<string>)
    ensures forall m :: m in r <==> m in ms && Selected(bal, positive, m)
    ensures Distinct(ms) ==> Distinct(r)
  {
    if ms == [] then []
    else
      var front := Filter(ms[..|ms| - 1], bal, positive);
      var last := ms[|ms| - 1];
      assert forall m :: m in ms <==> m in ms[..|ms| - 1] || m == last by {
        assert ms == ms[..|ms| - 1] + [last];
      }
      if Selected(bal, positive, last) then front + [last] else front
  }


  // ---------------------------------------------------------------------
  // Sorting

  /** Every element of the list ranks at most `b`. */
  predicate RankedBelow(ms: seq<string>, bal: map<string, real>, descending: bool, b: real) {
    forall i :: 0 <= i < |ms| ==> Rank(bal, descending, ms[i]) <= b
  }

  lemma OrderedSnoc(ms: seq<string>, x: string, bal: map<string, real>, descending: bool)
    requires Ordered(ms, bal, descending) && RankedBelow(ms, bal, descending, Rank(bal, descending, x))
    ensures Ordered(ms + [x], bal, descending)
  {
  }

  lemma {:induction false} InsertBelow(x: string, ys: seq<string>, bal: map<string, real>, descending: bool, b: real)
    requires Rank(bal, descending, x) <= b && RankedBelow(ys, bal, descending, b)
    ensures RankedBelow(Insert(x, ys, bal, descending), bal, descending, b)
  {
    if ys != [] {
      var front := ys[..|ys| - 1];
      if Rank(bal, descending, x) < Rank(bal, descending, ys[|ys| - 1]) {
        InsertBelow(x, front, bal, descending, b);
      }
    }
  }

  lemma {:induction false} InsertOrdered(x: string, ys: seq<string>, bal: map<string, real>, descending: bool)
    requires Ordered(ys, bal, descending)
    ensures Ordered(Insert(x, ys, bal, descending), bal, descending)
  {
    if ys != [] {
      var front := ys[..|ys| - 1];
      var last := ys[|ys| - 1];
      var top := Rank(bal, descending, last);
      assert RankedBelow(front, bal, descending, top);
      if Rank(bal, descending, x) < top {
        InsertOrdered(x, front, bal, descending);
        InsertBelow(x, front, bal, descending, top);
        OrderedSnoc(Insert(x, front, bal, descending), last, bal, descending);
      } else {
        assert ys == front + [last];
        OrderedSnoc(ys, x, bal, descending);
      }
    }
  }

  lemma {:induction false} InsertDistinct(x: string, ys: seq<string>, bal: map<string, real>, descending: bool)
    requires Distinct(ys) && x !in ys
    ensures Distinct(Insert(x, ys, bal, descending))
  {
    if ys != [] {
      var front := ys[..|ys| - 1];
      var last := ys[|ys| - 1];
      if Rank(bal, descending, x) < Rank(bal, descending, last) {
        var r := Insert(x, front, bal, descending);
        assert x !in front by {
          assert forall m :: m in front ==> m in ys;
        }
        InsertDistinct(x, front, bal, descending);
        assert last !in front by {
          forall k | 0 <= k < |front| ensures front[k] != last {
            assert front[k] == ys[k];
          }
        }
        assert last !in r by {
          assert last in ys;
          assert last !in multiset(front) && last != x;
          assert multiset(r) == multiset(front) + multiset{x};
          assert multiset(r)[last] == 0;
        }
      }
    }
  }

  lemma {:induction false} InsertSum(x: string, ys: seq<string>, bal: map<string, real>, descending: bool)
    ensures SumOver(Insert(x, ys, bal, descending), bal) == SumOver(ys, bal) + Get(bal, x)
  {
    if ys == [] {
      SumOverSnoc([], x, bal);
    } else {
      var front := ys[..|ys| - 1];
      var last := ys[|ys| - 1];
      if Rank(bal, descending, x) < Rank(bal, descending, last) {
        InsertSum(x, front, bal, descending);
        SumOverSnoc(Insert(x, front, bal, descending), last, bal);
      } else {
        SumOverSnoc(ys, x, bal);
      }
    }
  }

  lemma {:induction false} SortOrdered(ms: seq<string>, bal: map<string, real>, descending: bool)
    ensures Ordered(Sort(ms, bal, descending), bal, descending)
  {
    if ms != [] {
      SortOrdered(ms[..|ms| - 1], bal, descending);
      InsertOrdered(ms[|ms| - 1], Sort(ms[..|ms| - 1], bal, descending), bal, descending);
    }
  }

  lemma {:induction false} SortSum(ms: seq<string>, bal: map<string, real>, descending: bool)
    ensures SumOver(Sort(ms, bal, descending), bal) == SumOver(ms, bal)
  {
    if ms != [] {
      SortSum(ms[..|ms| - 1], bal, descending);
      InsertSum(ms[|ms| - 1], Sort(ms[..|ms| - 1], bal, descending), bal, descending);
    }
  }

  lemma {:induction false} SortDistinct(ms: seq<string>, bal: map<string, real>, descending: bool)
    requires Distinct(ms)
    ensures Distinct(Sort(ms, bal, descending))
  {
    if ms != [] {
      var front := ms[..|ms| - 1];
      var last := ms[|ms| - 1];
      var sorted := Sort(front, bal, descending);
      SortDistinct(front, bal, descending);
      assert last !in sorted by {
        assert last !in multiset(front);
      }
      InsertDistinct(last, sorted, bal, descending);
    }
  }

  /** The sort orders the list, keeps its elements and their sum, and keeps it duplicate-free. */
  lemma SortSpec(ms: seq<string>, bal: map<string, real>, descending: bool)
    ensures Ordered(Sort(ms, bal, descending), bal, descending)
    ensures SumOver(Sort(ms, bal, descending), bal) == SumOver(ms, bal)
    ensures Distinct(ms) ==> Distinct(Sort(ms, bal, descending))
  {
    SortOrdered(ms, bal, descending);
    SortSum(ms, bal, descending);
    if Distinct(ms) {
      SortDistinct(ms, bal, descending);
    }
  }

  // ---------------------------------------------------------------------
  // Partition

  /** Zero balances fall in neither part, so the two parts add up to the whole. */
  lemma {:induction false} FilterSum(ms: seq<string>, bal: map<string, real>)
    ensures SumOver(Filter(ms, bal, true), bal) + SumOver(Filter(ms, bal, false), bal) == SumOver(ms, bal)
  {
    if ms != [] {
      var front := ms[..|ms| - 1];
      var last := ms[|ms| - 1];
      FilterSum(front, bal);
      SumOverSnoc(Filter(front, bal, true), last, bal);
      SumOverSnoc(Filter(front, bal, false), last, bal);
    }
  }

  /** The sort keeps exactly the list's members. */
  lemma SortMembers(ms: seq<string>, bal: map<string, real>, descending: bool)
    ensures forall m :: m in Sort(ms, bal, descending) <==> m in ms
  {
    var r := Sort(ms, bal, descending);
    forall m ensures m in r <==> m in ms {
      assert m in r <==> m in multiset(r);
      assert m in ms <==> m in multiset(ms);
    }
  }

  /** Creditors: the members owed money (balance > 0), largest balance
      first; each once when the ledger's keys are distinct. */
  function Creditors(ms: seq<string>, bal: map<string, real>): (r: seq<string>)
    ensures forall m :: m in r <==> m in ms && Get(bal, m) > 0.0
    ensures forall i, j :: 0 <= i < j < |r| ==> Get(bal, r[i]) >= Get(bal, r[j])
    ensures Distinct(ms) ==> Distinct(r)
  {
    var f := Filter(ms, bal, true);
    SortSpec(f, bal, true);
    SortMembers(f, bal, true);
    Sort(f, bal, true)
  }

  /** Debtors: the members owing money (balance < 0), most negative balance
      first; each once when the ledger's keys are distinct. */
  function Debtors(ms: seq<string>, bal: map<string, real>): (r: seq<string>)
    ensures forall m :: m in r <==> m in ms && Get(bal, m) < 0.0
    ensures forall i, j :: 0 <= i < j < |r| ==> Get(bal, r[i]) <= Get(bal, r[j])
    ensures Distinct(ms) ==> Distinct(r)
  {
    var f := Filter(ms, bal, false);
    SortSpec(f, bal, false);
    SortMembers(f, bal, false);
    Sort(f, bal, false)
  }

  lemma {:induction false} FilterLength(ms: seq<string>, bal: map<string, real>)
    ensures |Filter(ms, bal, true)| + |Filter(ms, bal, false)| <= |ms|
  {
    if ms != [] {
      FilterLength(ms[..|ms| - 1], bal);
    }
  }

  /** No member is both a creditor and a debtor, so the two lists are no longer than the ledger. */
  lemma PartitionLength(ms: seq<string>, bal: map<string, real>)
    ensures |Creditors(ms, bal)| + |Debtors(ms, bal)| <= |ms|
  {
    var c, d := Filter(ms, bal, true), Filter(ms, bal, false);
    assert |Creditors(ms, bal)| == |c| by {
      assert |multiset(Creditors(ms, bal))| == |multiset(c)|;
    }
    assert |Debtors(ms, bal)| == |d| by {
      assert |multiset(Debtors(ms, bal))| == |multiset(d)|;
    }
    FilterLength(ms, bal);
  }

  /** The creditors' and debtors' balances together add up to the ledger's total. */
  lemma PartitionSum(ms: seq<string>, bal: map<string, real>)
    ensures SumOver(Creditors(ms, bal), bal) + SumOver(Debtors(ms, bal), bal) == SumOver(ms, bal)
  {
    SortSpec(Filter(ms, bal, true), bal, true);
    SortSpec(Filter(ms, bal, false), bal, false);
    FilterSum(ms, bal);
  }
}
