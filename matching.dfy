/** The greedy debt simplification of `CalculateSettlementsAsync`.  Every debtor in turn pays
    the creditors in order, each as much as both still have, until the debt or
    the credit runs out. */
module Matching {
  import opened Models
  import opened Balances

  /** The currency every settlement is issued in (a fixed string in the source). */
  const SettlementCurrency := "USD"

  /** `Math.Abs` */
  function Abs(x: real): real {
    if x < 0.0 then -x else x
  }

  /** `Math.Min` */
  function Min(a: real, b: real): real {
    if a <= b then a else b
  }

  /** Money `m` pays out in a list of settlements. */
  function Outgoing(s: seq<Settlement>, m: string): real {
    if s == [] then 0.0
    else Outgoing(s[..|s| - 1], m) + (if s[|s| - 1].fromMemberId == m then s[|s| - 1].amount else 0.0)
  }

  /** Money `m` receives in a list of settlements. */
  function Incoming(s: seq<Settlement>, m: string): real {
    if s == [] then 0.0
    else Incoming(s[..|s| - 1], m) + (if s[|s| - 1].toMemberId == m then s[|s| - 1].amount else 0.0)
  }

  /** All the money a list of settlements moves. */
  function Transferred(s: seq<Settlement>): real {
    if s == [] then 0.0 else Transferred(s[..|s| - 1]) + s[|s| - 1].amount
  }

  /** What the listed members pay out together. */
  function PaidBy(s: seq<Settlement>, ds: seq<string>): real {
    if ds == [] then 0.0 else PaidBy(s, ds[..|ds| - 1]) + Outgoing(s, ds[|ds| - 1])
  }

  /** Every listed creditor has no credit left. */
  predicate Drained(cs: seq<string>, credit: map<string, real>) {
    forall k :: 0 <= k < |cs| ==> Get(credit, cs[k]) == 0.0
  }

  /** How many listed creditors have no credit left. */
  function CountDrained(cs: seq<string>, credit: map<string, real>): nat {
    if cs == [] then 0
    else CountDrained(cs[..|cs| - 1], credit) + (if Get(credit, cs[|cs| - 1]) == 0.0 then 1 else 0)
  }

  /** 1 once a debt is paid off, else 0. */
  function Settled(remainingDebt: real): nat {
    if remainingDebt == 0.0 then 1 else 0
  }

  /** The fixed fields of the `k`-th settlement a run issues. */
  predicate Issued(x: Settlement, id: Guid, tripId: Guid, now: DateTime) {
    && x.id == id
    && x.tripId == tripId
    && x.fromMemberName == "" && x.toMemberName == ""
    && x.amount > 0.0
    && x.currency == SettlementCurrency
    && x.status == Pending
    && x.createdAt == now
    && x.settledAt == None
  }

  /** No two settlements connect the same debtor with the same creditor. */
  predicate DistinctPairs(s: seq<Settlement>) {
    forall k, l :: 0 <= k < l < |s| ==>
      s[k].fromMemberId != s[l].fromMemberId || s[k].toMemberId != s[l].toMemberId
  }

  // ---------------------------------------------------------------------
  // Ledger arithmetic

  lemma SettleSnoc(s: seq<Settlement>, x: Settlement)
    ensures forall m :: Outgoing(s + [x], m) == Outgoing(s, m) + (if x.fromMemberId == m then x.amount else 0.0)
    ensures forall m :: Incoming(s + [x], m) == Incoming(s, m) + (if x.toMemberId == m then x.amount else 0.0)
    ensures Transferred(s + [x]) == Transferred(s) + x.amount
  {
    assert (s + [x])[..|s|] == s;
  }

  /** A member who pays in none of the settlements pays nothing. */
  lemma {:induction false} OutgoingNone(s: seq<Settlement>, m: string)
    requires forall k :: 0 <= k < |s| ==> s[k].fromMemberId != m
    ensures Outgoing(s, m) == 0.0
  {
    if s != [] {
      OutgoingNone(s[..|s| - 1], m);
    }
  }

  /** A member who receives in none of the settlements receives nothing. */
  lemma {:induction false} IncomingNone(s: seq<Settlement>, m: string)
    requires forall k :: 0 <= k < |s| ==> s[k].toMemberId != m
    ensures Incoming(s, m) == 0.0
  {
    if s != [] {
      IncomingNone(s[..|s| - 1], m);
    }
  }

  lemma {:induction false} PaidByUnchanged(s: seq<Settlement>, x: Settlement, ds: seq<string>)
    requires x.fromMemberId !in ds
    ensures PaidBy(s + [x], ds) == PaidBy(s, ds)
  {
    SettleSnoc(s, x);
    if ds != [] {
      PaidByUnchanged(s, x, ds[..|ds| - 1]);
    }
  }

  lemma {:induction false} SettleConcat(s: seq<Settlement>, t: seq<Settlement>)
    ensures forall m :: Outgoing(s + t, m) == Outgoing(s, m) + Outgoing(t, m)
    ensures forall m :: Incoming(s + t, m) == Incoming(s, m) + Incoming(t, m)
    ensures Transferred(s + t) == Transferred(s) + Transferred(t)
  {
    if t == [] {
      assert s + t == s;
    } else {
      var front := t[..|t| - 1];
      var x := t[|t| - 1];
      assert s + t == (s + front) + [x];
      assert t == front + [x];
      SettleConcat(s, front);
      SettleSnoc(s + front, x);
      SettleSnoc(front, x);
    }
  }

  /** Settlements paid by members not listed leave the listed members' payments alone. */
  lemma {:induction false} PaidByBatch(s: seq<Settlement>, t: seq<Settlement>, ds: seq<string>)
    requires forall k :: 0 <= k < |t| ==> t[k].fromMemberId !in ds
    ensures PaidBy(s + t, ds) == PaidBy(s, ds)
  {
    SettleConcat(s, t);
    if ds != [] {
      var front := ds[..|ds| - 1];
      assert forall m :: m in front ==> m in ds;
      PaidByBatch(s, t, front);
      OutgoingNone(t, ds[|ds| - 1]);
    }
  }

  /** Pointwise bounds add up, and the sum is tight exactly when every bound is. */
  lemma {:induction false} PaidByBound(s: seq<Settlement>, ds: seq<string>, bal: map<string, real>)
    requires forall k :: 0 <= k < |ds| ==> Outgoing(s, ds[k]) <= -Get(bal, ds[k])
    ensures PaidBy(s, ds) <= -SumOver(ds, bal)
    ensures PaidBy(s, ds) == -SumOver(ds, bal) <==> forall k :: 0 <= k < |ds| ==> Outgoing(s, ds[k]) == -Get(bal, ds[k])
  {
    if ds != [] {
      var front := ds[..|ds| - 1];
      assert forall k :: 0 <= k < |front| ==> front[k] == ds[k];
      PaidByBound(s, front, bal);
    }
  }

  /** Credits that are all non-negative add up to zero only when all are zero. */
  lemma {:induction false} CreditSum(cs: seq<string>, credit: map<string, real>)
    requires forall k :: 0 <= k < |cs| ==> Get(credit, cs[k]) >= 0.0
    ensures SumOver(cs, credit) >= 0.0
    ensures SumOver(cs, credit) == 0.0 <==> Drained(cs, credit)
  {
    if cs != [] {
      var front := cs[..|cs| - 1];
      assert forall k :: 0 <= k < |front| ==> front[k] == cs[k];
      CreditSum(front, credit);
    }
  }

  /** Credits that only go down, and not below zero, stay drained once drained. */
  lemma DrainedStays(cs: seq<string>, credit: map<string, real>, credit': map<string, real>)
    requires forall k :: 0 <= k < |cs| ==> 0.0 <= Get(credit', cs[k]) <= Get(credit, cs[k])
    ensures Drained(cs, credit) ==> Drained(cs, credit')
  {
  }

  lemma {:induction false} CountDrainedBound(cs: seq<string>, credit: map<string, real>)
    ensures CountDrained(cs, credit) <= |cs|
  {
    if cs != [] {
      CountDrainedBound(cs[..|cs| - 1], credit);
    }
  }

  lemma {:induction false} CountDrainedUnchanged(cs: seq<string>, credit: map<string, real>, c: string, v: real)
    requires c !in cs
    ensures CountDrained(cs, credit[c := v]) == CountDrained(cs, credit)
  {
    if cs != [] {
      CountDrainedUnchanged(cs[..|cs| - 1], credit, c, v);
    }
  }

  /** Changing one listed creditor's credit changes the count by its own drained-ness only. */
  lemma {:induction false} CountDrainedUpdate(cs: seq<string>, credit: map<string, real>, c: string, v: real)
    requires Distinct(cs) && c in cs
    ensures CountDrained(cs, credit[c := v]) + (if Get(credit, c) == 0.0 then 1 else 0)
         == CountDrained(cs, credit) + (if v == 0.0 then 1 else 0)
  {
    var front := cs[..|cs| - 1];
    if cs[|cs| - 1] == c {
      assert c !in front;
      CountDrainedUnchanged(front, credit, c, v);
    } else {
      assert c in front;
      CountDrainedUpdate(front, credit, c, v);
    }
  }

  // ---------------------------------------------------------------------
  // Clearing

  /** If the credit covers the debt, every debtor pays off all their debt. */
  lemma DebtsCleared(s: seq<Settlement>, ds: seq<string>, cs: seq<string>, bal: map<string, real>, credit: map<string, real>)
    requires forall k :: 0 <= k < |ds| ==> Outgoing(s, ds[k]) <= -Get(bal, ds[k])
    requires forall k :: 0 <= k < |ds| ==> Outgoing(s, ds[k]) == -Get(bal, ds[k]) || Drained(cs, credit)
    requires Transferred(s) == PaidBy(s, ds)
    requires SumOver(cs, credit) == SumOver(cs, bal) - Transferred(s)
    ensures -SumOver(ds, bal) <= SumOver(cs, bal) ==>
      forall k :: 0 <= k < |ds| ==> Outgoing(s, ds[k]) == -Get(bal, ds[k])
  {
    PaidByBound(s, ds, bal);
    if Drained(cs, credit) {
      CreditSum(cs, credit);
    }
  }

  /** If the debt covers the credit, every creditor receives all their credit. */
  lemma CreditsCleared(s: seq<Settlement>, ds: seq<string>, cs: seq<string>, bal: map<string, real>, credit: map<string, real>)
    requires forall k :: 0 <= k < |ds| ==> Outgoing(s, ds[k]) <= -Get(bal, ds[k])
    requires forall k :: 0 <= k < |ds| ==> Outgoing(s, ds[k]) == -Get(bal, ds[k]) || Drained(cs, credit)
    requires forall k :: 0 <= k < |cs| ==> 0.0 <= Get(credit, cs[k]) == Get(bal, cs[k]) - Incoming(s, cs[k])
    requires Transferred(s) == PaidBy(s, ds)
    requires SumOver(cs, credit) == SumOver(cs, bal) - Transferred(s)
    ensures SumOver(cs, bal) <= -SumOver(ds, bal) ==>
      forall k :: 0 <= k < |cs| ==> Incoming(s, cs[k]) == Get(bal, cs[k])
  {
    PaidByBound(s, ds, bal);
    CreditSum(cs, credit);
  }

  // ---------------------------------------------------------------------
  // The greedy loop

  /** What serving one debtor achieves: `batch` is what the debtor pays,
      `credit'` the creditors' credit afterwards, `remainingDebt` the debt
      still unpaid. */
  ghost predicate PaysOff(debtor: string, debt: real, creditors: seq<string>, credit: map<string, real>,
                          batch: seq<Settlement>, credit': map<string, real>, remainingDebt: real) {
    && (forall k :: 0 <= k < |creditors| ==> creditors[k] in credit')
    && 0.0 <= remainingDebt <= debt
    && (forall k :: 0 <= k < |batch| ==> batch[k].fromMemberId == debtor && batch[k].toMemberId in creditors)
    && (forall k, l :: 0 <= k < l < |batch| ==> batch[k].toMemberId != batch[l].toMemberId)
    && Transferred(batch) == debt - remainingDebt
    && Outgoing(batch, debtor) == debt - remainingDebt
    && (forall k :: 0 <= k < |creditors| ==>
          0.0 <= Get(credit', creditors[k]) == Get(credit, creditors[k]) - Incoming(batch, creditors[k]))
    && (forall k :: 0 <= k < |creditors| ==> Get(credit', creditors[k]) <= Get(credit, creditors[k]))
    && (remainingDebt > 0.0 ==> Drained(creditors, credit'))
    && SumOver(creditors, credit') == SumOver(creditors, credit) - Transferred(batch)
    && |batch| + CountDrained(creditors, credit) <= Settled(remainingDebt) + CountDrained(creditors, credit')
  }

  /** The inner loop's payments after visiting the first `j` creditors: all
      from the debtor, at most one to each creditor, none yet to a creditor
      not visited, and adding up to the part of the debt paid. */
  ghost predicate PayingBatch(debtor: string, debt: real, creditors: seq<string>, j: nat,
                              batch: seq<Settlement>, remainingDebt: real) {
    && 0.0 <= remainingDebt <= debt
    && (forall k :: 0 <= k < |batch| ==> batch[k].fromMemberId == debtor && batch[k].toMemberId in creditors)
    && (forall k, i :: 0 <= k < |batch| && j <= i < |creditors| ==> batch[k].toMemberId != creditors[i])
    && (forall k, l :: 0 <= k < l < |batch| ==> batch[k].toMemberId != batch[l].toMemberId)
    && Transferred(batch) == debt - remainingDebt
    && Outgoing(batch, debtor) == debt - remainingDebt
  }

  /** The creditors' remaining credit after visiting the first `j`: what they
      had minus what they received, never negative, and all gone among the
      visited ones while the debt is still open. */
  ghost predicate PayingCredit(creditors: seq<string>, credit: map<string, real>, j: nat,
                               batch: seq<Settlement>, credit': map<string, real>, remainingDebt: real) {
    && j <= |creditors|
    && (forall k :: 0 <= k < |creditors| ==> creditors[k] in credit')
    && (forall k :: 0 <= k < |creditors| ==>
          0.0 <= Get(credit', creditors[k]) == Get(credit, creditors[k]) - Incoming(batch, creditors[k]))
    && (forall k :: 0 <= k < |creditors| ==> Get(credit', creditors[k]) <= Get(credit, creditors[k]))
    && (remainingDebt > 0.0 ==> forall k :: 0 <= k < j ==> Get(credit', creditors[k]) == 0.0)
    && SumOver(creditors, credit') == SumOver(creditors, credit) - Transferred(batch)
  }

  /** What the inner loop keeps after visiting the first `j` creditors; the
      last conjunct says each payment but one drains a creditor. */
  ghost predicate Paying(debtor: string, debt: real, creditors: seq<string>, credit: map<string, real>,
                         j: nat, batch: seq<Settlement>, credit': map<string, real>, remainingDebt: real) {
    && j <= |creditors|
    && PayingBatch(debtor, debt, creditors, j, batch, remainingDebt)
    && PayingCredit(creditors, credit, j, batch, credit', remainingDebt)
    && |batch| + CountDrained(creditors, credit) <= Settled(remainingDebt) + CountDrained(creditors, credit')
  }

  /** The inner loop's skip: a creditor is skipped once the debt is paid or its credit is gone. */
  lemma SkipStep(debtor: string, debt: real, creditors: seq<string>, credit: map<string, real>,
                 j: nat, batch: seq<Settlement>, credit': map<string, real>, remainingDebt: real)
    requires Paying(debtor, debt, creditors, credit, j, batch, credit', remainingDebt) && j < |creditors|
    requires remainingDebt <= 0.0 || Get(credit', creditors[j]) <= 0.0
    ensures Paying(debtor, debt, creditors, credit, j + 1, batch, credit', remainingDebt)
  {
  }

  lemma EmitBatch(debtor: string, debt: real, creditors: seq<string>, j: nat,
                  batch: seq<Settlement>, remainingDebt: real, x: Settlement)
    requires Distinct(creditors) && j < |creditors|
    requires x.fromMemberId == debtor && x.toMemberId == creditors[j] && 0.0 < x.amount <= remainingDebt
    requires PayingBatch(debtor, debt, creditors, j, batch, remainingDebt)
    ensures PayingBatch(debtor, debt, creditors, j + 1, batch + [x], remainingDebt - x.amount)
  {
    var t := batch + [x];
    SettleSnoc(batch, x);
    assert forall k :: 0 <= k < |batch| ==> t[k] == batch[k];
  }

  lemma EmitCredit(creditors: seq<string>, credit: map<string, real>, j: nat,
                   batch: seq<Settlement>, credit': map<string, real>, remainingDebt: real,
                   x: Settlement, amount: real)
    requires Distinct(creditors) && j < |creditors| && x.toMemberId == creditors[j] && creditors[j] in credit'
    requires 0.0 < remainingDebt && 0.0 < credit'[creditors[j]]
    requires amount == Min(remainingDebt, credit'[creditors[j]]) && x.amount == amount
    requires PayingCredit(creditors, credit, j, batch, credit', remainingDebt)
    ensures PayingCredit(creditors, credit, j + 1, batch + [x],
                         credit'[creditors[j] := credit'[creditors[j]] - amount], remainingDebt - amount)
  {
    var c := creditors[j];
    SettleSnoc(batch, x);
    SumOverUpdate(creditors, credit', c, credit'[c] - amount);
    assert forall k :: 0 <= k < j ==> creditors[k] != c;
  }

  lemma EmitCount(creditors: seq<string>, credit: map<string, real>, j: nat, n: nat,
                  credit': map<string, real>, remainingDebt: real, amount: real)
    requires Distinct(creditors) && j < |creditors| && creditors[j] in credit'
    requires 0.0 < remainingDebt && 0.0 < credit'[creditors[j]] && amount == Min(remainingDebt, credit'[creditors[j]])
    requires n + CountDrained(creditors, credit) <= CountDrained(creditors, credit')
    ensures var credit'' := credit'[creditors[j] := credit'[creditors[j]] - amount];
      n + 1 + CountDrained(creditors, credit) <= Settled(remainingDebt - amount) + CountDrained(creditors, credit'')
  {
    CountDrainedUpdate(creditors, credit', creditors[j], credit'[creditors[j]] - amount);
  }

  /** The inner loop's payment: the debtor pays the creditor `min(remaining debt, credit)`. */
  lemma EmitStep(debtor: string, debt: real, creditors: seq<string>, credit: map<string, real>,
                 j: nat, batch: seq<Settlement>, credit': map<string, real>, remainingDebt: real,
                 x: Settlement, amount: real)
    requires Distinct(creditors)
    requires Paying(debtor, debt, creditors, credit, j, batch, credit', remainingDebt) && j < |creditors|
    requires creditors[j] in credit' && remainingDebt > 0.0 && credit'[creditors[j]] > 0.0
    requires x.fromMemberId == debtor && x.toMemberId == creditors[j]
    requires amount == Min(remainingDebt, credit'[creditors[j]]) && x.amount == amount
    ensures Paying(debtor, debt, creditors, credit, j + 1, batch + [x],
                   credit'[creditors[j] := credit'[creditors[j]] - amount], remainingDebt - amount)
  {
    EmitBatch(debtor, debt, creditors, j, batch, remainingDebt, x);
    EmitCredit(creditors, credit, j, batch, credit', remainingDebt, x, amount);
    EmitCount(creditors, credit, j, |batch|, credit', remainingDebt, amount);
  }

  /** Once every creditor is visited, the loop's invariant is what serving the debtor achieves. */
  lemma PayingDone(debtor: string, debt: real, creditors: seq<string>, credit: map<string, real>,
                   batch: seq<Settlement>, credit': map<string, real>, remainingDebt: real)
    requires Paying(debtor, debt, creditors, credit, |creditors|, batch, credit', remainingDebt)
    ensures PaysOff(debtor, debt, creditors, credit, batch, credit', remainingDebt)
  {
  }

  lemma IssuedSnoc(batch: seq<Settlement>, x: Settlement, firstId: Guid, tripId: Guid, now: DateTime)
    requires forall k :: 0 <= k < |batch| ==> Issued(batch[k], firstId + k, tripId, now)
    requires Issued(x, firstId + |batch|, tripId, now)
    ensures forall k :: 0 <= k < |batch + [x]| ==> Issued((batch + [x])[k], firstId + k, tripId, now)
  {
  }

  /** One creditor of the inner (creditor) loop.  The creditor is skipped
      once the debt is paid or its credit is gone; otherwise the debtor pays it
      `min(remaining debt, credit)` in a new pending settlement. */
  method VisitCreditor(tripId: Guid, debtor: string, debt: real, creditors: seq<string>, credit: map<string, real>,
                       j: nat, batch: seq<Settlement>, credit': map<string, real>, remainingDebt: real,
                       firstId: Guid, now: DateTime)
    returns (nextBatch: seq<Settlement>, nextCredit: map<string, real>, nextDebt: real)
    requires Distinct(creditors) && j < |creditors|
    requires Paying(debtor, debt, creditors, credit, j, batch, credit', remainingDebt)
    requires forall k :: 0 <= k < |batch| ==> Issued(batch[k], firstId + k, tripId, now)
    ensures Paying(debtor, debt, creditors, credit, j + 1, nextBatch, nextCredit, nextDebt)
    ensures forall k :: 0 <= k < |nextBatch| ==> Issued(nextBatch[k], firstId + k, tripId, now)
    ensures var c := creditors[j];
      if remainingDebt <= 0.0 || Get(credit', c) <= 0.0 then
        nextBatch == batch && nextCredit == credit' && nextDebt == remainingDebt
      else
        var amount := Min(remainingDebt, Get(credit', c));
        && nextBatch == batch + [Settlement(firstId + |batch|, tripId, debtor, "", c, "",
                                            amount, SettlementCurrency, Pending, now, None)]
        && nextCredit == credit'[c := Get(credit', c) - amount]
        && nextDebt == remainingDebt - amount
  {
    var creditor := creditors[j];
    if remainingDebt <= 0.0 || credit'[creditor] <= 0.0 {
      SkipStep(debtor, debt, creditors, credit, j, batch, credit', remainingDebt);
      return batch, credit', remainingDebt;
    }
    var settlementAmount := Min(remainingDebt, credit'[creditor]);
    var settlement := Settlement(firstId + |batch|, tripId, debtor, "", creditor, "",
                                 settlementAmount, SettlementCurrency, Pending, now, None);
    EmitStep(debtor, debt, creditors, credit, j, batch, credit', remainingDebt, settlement, settlementAmount);
    IssuedSnoc(batch, settlement, firstId, tripId, now);
    nextBatch := batch + [settlement];
    nextCredit := credit'[creditor := credit'[creditor] - settlementAmount];
    nextDebt := remainingDebt - settlementAmount;
  }

  /** The inner (creditor) loop for one debtor: the debtor pays each creditor in turn
      `min(remaining debt, remaining credit)`, skipping creditors with no
      credit left and every creditor once the debt is paid.  The k-th
      settlement of the batch gets the identifier `firstId + k`. */
  method PayCreditors(tripId: Guid, debtor: string, debt: real, creditors: seq<string>, credit: map<string, real>,
                      firstId: Guid, now: DateTime)
    returns (batch: seq<Settlement>, credit': map<string, real>, remainingDebt: real)
    requires Distinct(creditors) && 0.0 <= debt
    requires forall k :: 0 <= k < |creditors| ==> creditors[k] in credit && credit[creditors[k]] >= 0.0
    ensures forall k :: 0 <= k < |batch| ==> Issued(batch[k], firstId + k, tripId, now)
    ensures PaysOff(debtor, debt, creditors, credit, batch, credit', remainingDebt)
  {
    batch, credit', remainingDebt := [], credit, debt;
    var j := 0;
    while j < |creditors|
      invariant Paying(debtor, debt, creditors, credit, j, batch, credit', remainingDebt)
      invariant forall k :: 0 <= k < |batch| ==> Issued(batch[k], firstId + k, tripId, now)
    {
      batch, credit', remainingDebt :=
        VisitCreditor(tripId, debtor, debt, creditors, credit, j, batch, credit', remainingDebt, firstId, now);
      j := j + 1;
    }
    PayingDone(debtor, debt, creditors, credit, batch, credit', remainingDebt);
  }

  /** The greedy loop's inputs: distinct creditors with positive balances and
      distinct debtors with negative ones. */
  predicate Ranked(creditors: seq<string>, debtors: seq<string>, balances: map<string, real>) {
    && Distinct(creditors) && Distinct(debtors)
    && (forall k :: 0 <= k < |creditors| ==> Get(balances, creditors[k]) > 0.0)
    && (forall k :: 0 <= k < |debtors| ==> Get(balances, debtors[k]) < 0.0)
  }

  /** What the outer loop keeps after serving the first `i` debtors. */
  ghost predicate Progress(creditors: seq<string>, debtors: seq<string>, balances: map<string, real>,
                           i: nat, settlements: seq<Settlement>, credit: map<string, real>) {
    && i <= |debtors|
    && (forall k :: 0 <= k < |creditors| ==> creditors[k] in credit)
    && (forall k :: 0 <= k < |creditors| ==>
          0.0 <= Get(credit, creditors[k]) == Get(balances, creditors[k]) - Incoming(settlements, creditors[k]))
    && (forall k :: 0 <= k < |settlements| ==>
          settlements[k].fromMemberId in debtors[..i] && settlements[k].toMemberId in creditors)
    && DistinctPairs(settlements)
    && (forall k :: 0 <= k < i ==> Outgoing(settlements, debtors[k]) <= -Get(balances, debtors[k]))
    && (forall k :: 0 <= k < i ==>
          Outgoing(settlements, debtors[k]) == -Get(balances, debtors[k]) || Drained(creditors, credit))
    && Transferred(settlements) == PaidBy(settlements, debtors[..i])
    && SumOver(creditors, credit) == SumOver(creditors, balances) - Transferred(settlements)
    && |settlements| <= i + CountDrained(creditors, credit)
  }

  lemma StepCredit(creditors: seq<string>, debtors: seq<string>, balances: map<string, real>, i: nat,
                   s: seq<Settlement>, credit: map<string, real>,
                   batch: seq<Settlement>, credit': map<string, real>, remainingDebt: real)
    requires Ranked(creditors, debtors, balances) && Progress(creditors, debtors, balances, i, s, credit) && i < |debtors|
    requires PaysOff(debtors[i], -Get(balances, debtors[i]), creditors, credit, batch, credit', remainingDebt)
    ensures forall k :: 0 <= k < |creditors| ==>
      0.0 <= Get(credit', creditors[k]) == Get(balances, creditors[k]) - Incoming(s + batch, creditors[k])
    ensures SumOver(creditors, credit') == SumOver(creditors, balances) - Transferred(s + batch)
    ensures |s + batch| <= i + 1 + CountDrained(creditors, credit')
  {
    SettleConcat(s, batch);
    var before, after := CountDrained(creditors, credit), CountDrained(creditors, credit');
    assert |s| <= i + before;
    assert |batch| + before <= Settled(remainingDebt) + after;
    assert Settled(remainingDebt) <= 1;
  }

  lemma StepPairs(creditors: seq<string>, debtors: seq<string>, balances: map<string, real>, i: nat,
                  s: seq<Settlement>, credit: map<string, real>,
                  batch: seq<Settlement>, credit': map<string, real>, remainingDebt: real)
    requires Ranked(creditors, debtors, balances) && Progress(creditors, debtors, balances, i, s, credit) && i < |debtors|
    requires PaysOff(debtors[i], -Get(balances, debtors[i]), creditors, credit, batch, credit', remainingDebt)
    ensures forall k :: 0 <= k < |s + batch| ==>
      (s + batch)[k].fromMemberId in debtors[..i + 1] && (s + batch)[k].toMemberId in creditors
    ensures DistinctPairs(s + batch)
  {
    var t := s + batch;
    assert debtors[i] !in debtors[..i];
    assert forall m :: m in debtors[..i] ==> m in debtors[..i + 1];
    assert debtors[i] in debtors[..i + 1];
    forall k | 0 <= k < |t|
      ensures t[k].fromMemberId in debtors[..i + 1] && t[k].toMemberId in creditors
    {
      if k < |s| {
        assert t[k] == s[k];
      } else {
        assert t[k] == batch[k - |s|];
      }
    }
    forall k, l | 0 <= k < l < |t|
      ensures t[k].fromMemberId != t[l].fromMemberId || t[k].toMemberId != t[l].toMemberId
    {
      if l < |s| {
        assert t[k] == s[k] && t[l] == s[l];
      } else if k < |s| {
        assert t[k] == s[k] && t[l] == batch[l - |s|];
      } else {
        assert t[k] == batch[k - |s|] && t[l] == batch[l - |s|];
      }
    }
  }

  lemma StepDebtors(creditors: seq<string>, debtors: seq<string>, balances: map<string, real>, i: nat,
                    s: seq<Settlement>, credit: map<string, real>,
                    batch: seq<Settlement>, credit': map<string, real>, remainingDebt: real)
    requires Ranked(creditors, debtors, balances) && Progress(creditors, debtors, balances, i, s, credit) && i < |debtors|
    requires PaysOff(debtors[i], -Get(balances, debtors[i]), creditors, credit, batch, credit', remainingDebt)
    ensures forall k :: 0 <= k < i + 1 ==> Outgoing(s + batch, debtors[k]) <= -Get(balances, debtors[k])
    ensures forall k :: 0 <= k < i + 1 ==>
      Outgoing(s + batch, debtors[k]) == -Get(balances, debtors[k]) || Drained(creditors, credit')
    ensures Transferred(s + batch) == PaidBy(s + batch, debtors[..i + 1])
  {
    var debtor := debtors[i];
    var t := s + batch;
    assert debtor !in debtors[..i];
    OutgoingNone(s, debtor);
    SettleConcat(s, batch);
    DrainedStays(creditors, credit, credit');
    PaidByBatch(s, batch, debtors[..i]);
    assert debtors[..i + 1][..i] == debtors[..i];
    assert PaidBy(t, debtors[..i + 1]) == PaidBy(t, debtors[..i]) + Outgoing(t, debtor);
    forall k | 0 <= k < i + 1
      ensures Outgoing(t, debtors[k]) <= -Get(balances, debtors[k])
      ensures Outgoing(t, debtors[k]) == -Get(balances, debtors[k]) || Drained(creditors, credit')
    {
      if k < i {
        OutgoingNone(batch, debtors[k]);
      }
    }
  }

  lemma ProgressStep(creditors: seq<string>, debtors: seq<string>, balances: map<string, real>, i: nat,
                     s: seq<Settlement>, credit: map<string, real>,
                     batch: seq<Settlement>, credit': map<string, real>, remainingDebt: real)
    requires Ranked(creditors, debtors, balances) && Progress(creditors, debtors, balances, i, s, credit) && i < |debtors|
    requires PaysOff(debtors[i], -Get(balances, debtors[i]), creditors, credit, batch, credit', remainingDebt)
    ensures Progress(creditors, debtors, balances, i + 1, s + batch, credit')
  {
    StepCredit(creditors, debtors, balances, i, s, credit, batch, credit', remainingDebt);
    StepPairs(creditors, debtors, balances, i, s, credit, batch, credit', remainingDebt);
    StepDebtors(creditors, debtors, balances, i, s, credit, batch, credit', remainingDebt);
  }

  /** One pass of the outer (debtor) loop, for the `i`-th debtor: the debtor pays the creditors
      `|balance|` in all, and its settlements join the list with the next
      identifiers. */
  method ServeDebtor(tripId: Guid, creditors: seq<string>, debtors: seq<string>, balances: map<string, real>,
                     i: nat, settlements: seq<Settlement>, credit: map<string, real>, firstId: Guid, now: DateTime)
    returns (nextSettlements: seq<Settlement>, nextCredit: map<string, real>)
    requires Ranked(creditors, debtors, balances) && i < |debtors|
    requires Progress(creditors, debtors, balances, i, settlements, credit)
    requires forall k :: 0 <= k < |settlements| ==> Issued(settlements[k], firstId + k, tripId, now)
    ensures Progress(creditors, debtors, balances, i + 1, nextSettlements, nextCredit)
    ensures forall k :: 0 <= k < |nextSettlements| ==> Issued(nextSettlements[k], firstId + k, tripId, now)
    ensures |settlements| <= |nextSettlements| && nextSettlements[..|settlements|] == settlements
    ensures forall k :: |settlements| <= k < |nextSettlements| ==> nextSettlements[k].fromMemberId == debtors[i]
  {
    var debtor := debtors[i];
    var batch, credit', remainingDebt :=
      PayCreditors(tripId, debtor, Abs(balances[debtor]), creditors, credit, firstId + |settlements|, now);
    ProgressStep(creditors, debtors, balances, i, settlements, credit, batch, credit', remainingDebt);
    nextSettlements := settlements + batch;
    assert forall k :: 0 <= k < |batch| ==> nextSettlements[|settlements| + k] == batch[k];
    assert nextSettlements[..|settlements|] == settlements;
    nextCredit := credit';
  }

  /** The outer (debtor) loop: matches the debtors (most indebted first) against the
      creditors (largest first).  The k-th settlement gets the identifier
      `firstId + k`. */
  method MatchDebts(tripId: Guid, creditors: seq<string>, debtors: seq<string>, balances: map<string, real>,
                    firstId: Guid, now: DateTime) returns (settlements: seq<Settlement>)
    requires Ranked(creditors, debtors, balances)
    ensures forall k :: 0 <= k < |settlements| ==>
      && Issued(settlements[k], firstId + k, tripId, now)
      && settlements[k].fromMemberId in debtors
      && settlements[k].toMemberId in creditors
    ensures DistinctPairs(settlements)
    ensures |settlements| <= |debtors| + |creditors|
    ensures forall k :: 0 <= k < |debtors| ==> Outgoing(settlements, debtors[k]) <= -Get(balances, debtors[k])
    ensures forall k :: 0 <= k < |creditors| ==> Incoming(settlements, creditors[k]) <= Get(balances, creditors[k])
    ensures -SumOver(debtors, balances) <= SumOver(creditors, balances) ==>
      forall k :: 0 <= k < |debtors| ==> Outgoing(settlements, debtors[k]) == -Get(balances, debtors[k])
    ensures SumOver(creditors, balances) <= -SumOver(debtors, balances) ==>
      forall k :: 0 <= k < |creditors| ==> Incoming(settlements, creditors[k]) == Get(balances, creditors[k])
  {
    var credit := balances;
    settlements := [];
    var i := 0;
    while i < |debtors|
      invariant Progress(creditors, debtors, balances, i, settlements, credit)
      invariant forall k :: 0 <= k < |settlements| ==> Issued(settlements[k], firstId + k, tripId, now)
    {
      settlements, credit := ServeDebtor(tripId, creditors, debtors, balances, i, settlements, credit, firstId, now);
      i := i + 1;
    }
    assert debtors[..i] == debtors;
    CountDrainedBound(creditors, credit);
    DebtsCleared(settlements, debtors, creditors, balances, credit);
    CreditsCleared(settlements, debtors, creditors, balances, credit);
  }
}
