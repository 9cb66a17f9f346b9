/** The share calculator: one total, a split strategy and a participant list
    become one share record per participant, in input order. */
module ShareCalculator {
  import opened Models

  /** The percentage a participant supplied, a missing one counting as 0. */
  function Pct(p: SplitParticipantDto): real {
    p.sharePercentage.GetOr(0.0)
  }

  /** The fixed amount a participant supplied, a missing one counting as 0. */
  function Amount(p: SplitParticipantDto): real {
    p.shareAmount.GetOr(0.0)
  }

  /** The share units a participant supplied, missing ones counting as 0. */
  function Units(p: SplitParticipantDto): int {
    p.shares.GetOr(0)
  }

  /** Sum of the supplied percentages. */
  function PctSum(ps: seq<SplitParticipantDto>): real {
    if ps == [] then 0.0 else PctSum(ps[..|ps| - 1]) + Pct(ps[|ps| - 1])
  }

  /** Sum of the supplied fixed amounts. */
  function AmountSum(ps: seq<SplitParticipantDto>): real {
    if ps == [] then 0.0 else AmountSum(ps[..|ps| - 1]) + Amount(ps[|ps| - 1])
  }

  /** Sum of the supplied share units, in unbounded integers. */
  function UnitsSum(ps: seq<SplitParticipantDto>): int {
    if ps == [] then 0 else UnitsSum(ps[..|ps| - 1]) + Units(ps[|ps| - 1])
  }

  /** The total of the share units as .NET's `Sum` over `int` computes it: a
      left-to-right running sum that fails as soon as a partial sum leaves the
      32-bit range. */
  function TotalShares(ps: seq<SplitParticipantDto>): (r: Option<Int32>)
    ensures r.Some? ==> r.value == UnitsSum(ps)
    ensures r.None? <==> exists k :: 0 < k <= |ps| && !InInt32(UnitsSum(ps[..k]))
  {
    if ps == [] then Some(0)
    else
      var front := ps[..|ps| - 1];
      assert forall k :: 0 < k <= |front| ==> front[..k] == ps[..k];
      assert ps[..|ps|] == ps;
      match TotalShares(front)
      case None => None
      case Some(t) =>
        var s := t + Units(ps[|ps| - 1]);
        if InInt32(s) then Some(s) else None
  }

  /** The per-participant formula of each strategy, with the values it closes over. */
  datatype Formula =
    | EqualFormula(share: real, percentage: real)
    | PercentageFormula(total: real)
    | FixedAmountFormula(total: real)
    | BySharesFormula(total: real, totalShares: int)

  /** The formula divides by nothing that is zero. */
  predicate Defined(f: Formula) {
    && (f.FixedAmountFormula? ==> f.total != 0.0)
    && (f.BySharesFormula? ==> f.totalShares != 0)
  }

  /** The share amount the formula gives one participant. */
  function AmountFor(f: Formula, p: SplitParticipantDto): real
    requires Defined(f)
  {
    match f
    case EqualFormula(share, _) => share
    case PercentageFormula(total) => total * Pct(p) / 100.0
    case FixedAmountFormula(_) => Amount(p)
    case BySharesFormula(total, n) => total * (Units(p) as real) / (n as real)
  }

  /** The share percentage the formula gives one participant. */
  function PercentFor(f: Formula, p: SplitParticipantDto): real
    requires Defined(f)
  {
    match f
    case EqualFormula(_, pct) => pct
    case PercentageFormula(_) => Pct(p)
    case FixedAmountFormula(total) => Amount(p) / total * 100.0
    case BySharesFormula(_, n) => (Units(p) as real) / (n as real) * 100.0
  }

  /** Outside the equal split, a participant's share amount is their share
      percentage of the total. */
  lemma AmountIsPercentOfTotal(f: Formula, p: SplitParticipantDto)
    requires Defined(f) && !f.EqualFormula?
    ensures AmountFor(f, p) == f.total * PercentFor(f, p) / 100.0
  {
    match f
    case PercentageFormula(_) =>
    case FixedAmountFormula(t) =>
      HundredthOfPercent(t, Amount(p) / t);
      DivCancel(t, Amount(p));
    case BySharesFormula(t, n) =>
      HundredthOfPercent(t, (Units(p) as real) / (n as real));
      assert t * ((Units(p) as real) / (n as real)) == t * (Units(p) as real) / (n as real);
  }

  /** A part of a positive whole is between 0 and 100 percent of it. */
  lemma PercentOfWhole(f: Formula, p: SplitParticipantDto)
    requires Defined(f)
    requires f.FixedAmountFormula? ==> 0.0 <= Amount(p) <= f.total
    requires f.BySharesFormula? ==> 0 <= Units(p) <= f.totalShares
    requires f.PercentageFormula? ==> 0.0 <= Pct(p) <= 100.0
    requires f.EqualFormula? ==> 0.0 <= f.percentage <= 100.0
    ensures 0.0 <= PercentFor(f, p) <= 100.0
  {
    match f
    case EqualFormula(_, _) =>
    case PercentageFormula(_) =>
    case FixedAmountFormula(t) =>
      FractionOfWhole(Amount(p), t);
    case BySharesFormula(_, n) =>
      FractionOfWhole(Units(p) as real, n as real);
  }

  lemma HundredthOfPercent(t: real, q: real)
    ensures t * (q * 100.0) / 100.0 == t * q
  {}

  lemma FractionOfWhole(a: real, t: real)
    requires t != 0.0 && 0.0 <= a <= t
    ensures 0.0 <= a / t * 100.0 <= 100.0
  {
    assert 0.0 < t;
    assert a / t <= 1.0;
  }

  /** The share record the formula gives one participant. */
  function ShareOf(f: Formula, p: SplitParticipantDto): SplitParticipant
    requires Defined(f)
  {
    SplitParticipant(p.memberId, p.memberName, AmountFor(f, p), PercentFor(f, p), false, None)
  }

  /** LINQ `Select`: the formula applied to every participant, in order. */
  function Select(f: Formula, ps: seq<SplitParticipantDto>): (r: seq<SplitParticipant>)
    requires Defined(f)
    ensures |r| == |ps|
    ensures forall i :: 0 <= i < |ps| ==> r[i] == ShareOf(f, ps[i])
  {
    if ps == [] then [] else Select(f, ps[..|ps| - 1]) + [ShareOf(f, ps[|ps| - 1])]
  }

  /** Each output record belongs to the input participant at the same position
      and starts unpaid. */
  predicate CopiesMembers(ps: seq<SplitParticipantDto>, r: seq<SplitParticipant>) {
    && |r| == |ps|
    && forall i :: 0 <= i < |ps| ==>
         && r[i].memberId == ps[i].memberId
         && r[i].memberName == ps[i].memberName
         && !r[i].isPaid
         && r[i].paidAt == None
  }

  /** Equal strategy: Total/N and 100/N for everyone; N is divided by before
      the list is looked at, so an empty list is a division by zero. */
  function EqualSplit(total: real, ps: seq<SplitParticipantDto>): (r: Result<seq<SplitParticipant>>)
    ensures r.Err? <==> |ps| == 0
    ensures r.Err? ==> r.error == DivideByZero
    ensures r.Ok? ==> CopiesMembers(ps, r.value)
  {
    if |ps| == 0 then Err(DivideByZero)
    else Ok(Select(EqualFormula(total / (|ps| as real), 100.0 / (|ps| as real)), ps))
  }

  /** Percentage strategy: never fails. */
  function PercentageSplit(total: real, ps: seq<SplitParticipantDto>): (r: seq<SplitParticipant>)
    ensures CopiesMembers(ps, r)
  {
    Select(PercentageFormula(total), ps)
  }

  /** Fixed-amount strategy: divides by the total once per participant, so a
      zero total fails only when there is a participant. */
  function FixedAmountSplit(total: real, ps: seq<SplitParticipantDto>): (r: Result<seq<SplitParticipant>>)
    ensures r.Err? <==> |ps| > 0 && total == 0.0
    ensures r.Err? ==> r.error == DivideByZero
    ensures r.Ok? ==> CopiesMembers(ps, r.value)
  {
    if ps == [] then Ok([])
    else if total == 0.0 then Err(DivideByZero)
    else Ok(Select(FixedAmountFormula(total), ps))
  }

  /** By-shares strategy: the unit total is summed first (checked), then each
      participant divides by it. */
  function BySharesSplit(total: real, ps: seq<SplitParticipantDto>): (r: Result<seq<SplitParticipant>>)
    ensures r == Err(Overflow) <==> exists k :: 0 < k <= |ps| && !InInt32(UnitsSum(ps[..k]))
    ensures r == Err(DivideByZero) <==>
      && |ps| > 0 && UnitsSum(ps) == 0
      && forall k :: 0 < k <= |ps| ==> InInt32(UnitsSum(ps[..k]))
    ensures r.Ok? || r == Err(Overflow) || r == Err(DivideByZero)
    ensures r.Ok? ==> CopiesMembers(ps, r.value)
  {
    match TotalShares(ps)
    case None => Err(Overflow)
    case Some(n) =>
      if ps == [] then Ok([])
      else if n == 0 then Err(DivideByZero)
      else Ok(Select(BySharesFormula(total, n), ps))
  }

  /** The share calculator: the request's strategy picks the formula. */
  function CalculateParticipantShares(req: CreateSplitRequest): (r: Result<seq<SplitParticipant>>)
    ensures r.Ok? ==> CopiesMembers(req.participants, r.value)
    ensures req.splitType == Equal ==> r == EqualSplit(req.totalAmount, req.participants)
    ensures req.splitType == Percentage ==> r == Ok(PercentageSplit(req.totalAmount, req.participants))
    ensures req.splitType == FixedAmount ==> r == FixedAmountSplit(req.totalAmount, req.participants)
    ensures req.splitType == ByShares ==> r == BySharesSplit(req.totalAmount, req.participants)
  {
    match req.splitType
    case Equal => EqualSplit(req.totalAmount, req.participants)
    case Percentage => Ok(PercentageSplit(req.totalAmount, req.participants))
    case FixedAmount => FixedAmountSplit(req.totalAmount, req.participants)
    case ByShares => BySharesSplit(req.totalAmount, req.participants)
  }

  /** `CreateSplitAsync` without its storage: the split a request creates, with the
      calculated shares as its participants (tags are not modelled). */
  function NewSplit(req: CreateSplitRequest): (r: Result<SpendingSplit>)
    ensures r.Ok? <==> CalculateParticipantShares(req).Ok?
    ensures r.Err? ==> r.error == CalculateParticipantShares(req).error
    ensures r.Ok? ==> r.value.splitAmount == req.totalAmount && CopiesMembers(req.participants, r.value.participants)
    ensures r.Ok? ==> r.value.participants == CalculateParticipantShares(req).value
    ensures r.Ok? ==> && r.value.transactionId == req.transactionId && r.value.tripId == req.tripId
                      && r.value.splitType == req.splitType && r.value.currency == req.currency
                      && r.value.payerId == req.payerId && r.value.payerName == req.payerName
  {
    match CalculateParticipantShares(req)
    case Err(e) => Err(e)
    case Ok(participants) =>
      Ok(SpendingSplit(req.transactionId, req.tripId, req.totalAmount, req.splitType, req.currency,
                       req.payerId, req.payerName, participants))
  }

  // ---------------------------------------------------------------------
  // Totals of each strategy

  /** Sum of the amounts a formula gives a participant list. */
  function AmountsFor(f: Formula, ps: seq<SplitParticipantDto>): real
    requires Defined(f)
  {
    if ps == [] then 0.0 else AmountsFor(f, ps[..|ps| - 1]) + AmountFor(f, ps[|ps| - 1])
  }

  /** Sum of the percentages a formula gives a participant list. */
  function PercentsFor(f: Formula, ps: seq<SplitParticipantDto>): real
    requires Defined(f)
  {
    if ps == [] then 0.0 else PercentsFor(f, ps[..|ps| - 1]) + PercentFor(f, ps[|ps| - 1])
  }

  lemma {:induction false} SelectTotals(f: Formula, ps: seq<SplitParticipantDto>)
    requires Defined(f)
    ensures ShareTotal(Select(f, ps)) == AmountsFor(f, ps)
    ensures PercentageTotal(Select(f, ps)) == PercentsFor(f, ps)
  {
    if ps != [] {
      SelectTotals(f, ps[..|ps| - 1]);
      var r := Select(f, ps);
      assert r[..|r| - 1] == Select(f, ps[..|ps| - 1]);
    }
  }

  lemma MulSucc(n: nat, c: real)
    ensures ((n + 1) as real) * c == (n as real) * c + c
  {}

  lemma ScaledQuotientAdd(k: real, a: real, b: real, s: real, d: real)
    requires d != 0.0 && s == a + b
    ensures k * a / d + k * b / d == k * s / d
  {}

  lemma QuotientScaledAdd(a: real, b: real, s: real, d: real)
    requires d != 0.0 && s == a + b
    ensures a / d * 100.0 + b / d * 100.0 == s / d * 100.0
  {}

  lemma {:induction false} EqualTotals(share: real, pct: real, ps: seq<SplitParticipantDto>)
    ensures AmountsFor(EqualFormula(share, pct), ps) == (|ps| as real) * share
    ensures PercentsFor(EqualFormula(share, pct), ps) == (|ps| as real) * pct
  {
    if ps != [] {
      EqualTotals(share, pct, ps[..|ps| - 1]);
      MulSucc(|ps| - 1, share);
      MulSucc(|ps| - 1, pct);
    }
  }

  lemma {:induction false} PercentageTotals(total: real, ps: seq<SplitParticipantDto>)
    ensures PercentsFor(PercentageFormula(total), ps) == PctSum(ps)
    ensures AmountsFor(PercentageFormula(total), ps) == total * PctSum(ps) / 100.0
  {
    if ps != [] {
      var front := ps[..|ps| - 1];
      PercentageTotals(total, front);
      ScaledQuotientAdd(total, PctSum(front), Pct(ps[|ps| - 1]), PctSum(ps), 100.0);
    }
  }

  lemma {:induction false} FixedAmountTotals(total: real, ps: seq<SplitParticipantDto>)
    requires total != 0.0
    ensures AmountsFor(FixedAmountFormula(total), ps) == AmountSum(ps)
    ensures PercentsFor(FixedAmountFormula(total), ps) == AmountSum(ps) / total * 100.0
  {
    if ps != [] {
      var front := ps[..|ps| - 1];
      FixedAmountTotals(total, front);
      QuotientScaledAdd(AmountSum(front), Amount(ps[|ps| - 1]), AmountSum(ps), total);
    }
  }

  lemma {:induction false} BySharesAmountTotal(total: real, n: int, ps: seq<SplitParticipantDto>)
    requires n != 0
    ensures AmountsFor(BySharesFormula(total, n), ps) == total * (UnitsSum(ps) as real) / (n as real)
  {
    if ps != [] {
      var front := ps[..|ps| - 1];
      BySharesAmountTotal(total, n, front);
      ScaledQuotientAdd(total, UnitsSum(front) as real, Units(ps[|ps| - 1]) as real, UnitsSum(ps) as real, n as real);
    }
  }

  lemma {:induction false} BySharesPercentTotal(total: real, n: int, ps: seq<SplitParticipantDto>)
    requires n != 0
    ensures PercentsFor(BySharesFormula(total, n), ps) == (UnitsSum(ps) as real) / (n as real) * 100.0
  {
    if ps != [] {
      var front := ps[..|ps| - 1];
      BySharesPercentTotal(total, n, front);
      QuotientScaledAdd(UnitsSum(front) as real, Units(ps[|ps| - 1]) as real, UnitsSum(ps) as real, n as real);
    }
  }

  // ---------------------------------------------------------------------
  // What each strategy promises

  lemma DivCancel(n: real, t: real)
    requires n != 0.0
    ensures n * (t / n) == t
  {}

  lemma MulDivCancel(t: real, d: real)
    requires d != 0.0
    ensures t * d / d == t
  {}

  lemma SelfQuotient(n: real)
    requires n != 0.0
    ensures n / n * 100.0 == 100.0
  {}

  /** For a non-zero total, scaling by s percent keeps the total exactly when s is 100. */
  lemma PercentOfTotal(t: real, s: real)
    requires t != 0.0
    ensures t * s / 100.0 == t <==> s == 100.0
  {
    if t * s / 100.0 == t {
      assert t * (s - 100.0) == 0.0;
    }
  }

  /** For a non-zero total, a / t is 100 percent exactly when a is t. */
  lemma ShareOfTotal(a: real, t: real)
    requires t != 0.0
    ensures a / t * 100.0 == 100.0 <==> a == t
  {
    if a / t * 100.0 == 100.0 {
      assert a / t == 1.0;
    }
  }

  /** Equal split: every participant owes Total/N and holds 100/N percent. */
  lemma EqualSplitEntries(total: real, ps: seq<SplitParticipantDto>)
    requires |ps| > 0
    ensures var r := EqualSplit(total, ps);
      && r.Ok?
      && forall i :: 0 <= i < |r.value| ==>
           && r.value[i].shareAmount == total / (|ps| as real)
           && r.value[i].sharePercentage == 100.0 / (|ps| as real)
  {
  }

  /** Equal split: the shares add up to the total and the percentages to 100. */
  lemma EqualSplitReconciles(total: real, ps: seq<SplitParticipantDto>)
    requires |ps| > 0
    ensures var r := EqualSplit(total, ps);
      && r.Ok?
      && ShareTotal(r.value) == total
      && PercentageTotal(r.value) == 100.0
  {
    var n := |ps| as real;
    var f := EqualFormula(total / n, 100.0 / n);
    var r := Select(f, ps);
    assert EqualSplit(total, ps) == Ok(r);
    assert ShareTotal(r) == total by {
      SelectTotals(f, ps);
      EqualTotals(total / n, 100.0 / n, ps);
      DivCancel(n, total);
    }
    assert PercentageTotal(r) == 100.0 by {
      SelectTotals(f, ps);
      EqualTotals(total / n, 100.0 / n, ps);
      DivCancel(n, 100.0);
    }
  }

  /** Percentage split: each share is Total * pct / 100 and keeps pct as its
      percentage, a missing pct counting as 0. */
  lemma PercentageSplitEntries(total: real, ps: seq<SplitParticipantDto>)
    ensures var r := PercentageSplit(total, ps);
      forall i :: 0 <= i < |r| ==>
        && r[i].sharePercentage == Pct(ps[i])
        && r[i].shareAmount == total * Pct(ps[i]) / 100.0
  {
  }

  /** Percentage split: the shares reconcile with the total exactly when the
      supplied percentages add up to 100 -- which nothing checks. */
  lemma PercentageSplitScales(total: real, ps: seq<SplitParticipantDto>)
    ensures var r := PercentageSplit(total, ps);
      && PercentageTotal(r) == PctSum(ps)
      && ShareTotal(r) == total * PctSum(ps) / 100.0
      && (total != 0.0 ==> (ShareTotal(r) == total <==> PctSum(ps) == 100.0))
  {
    SelectTotals(PercentageFormula(total), ps);
    PercentageTotals(total, ps);
    if total != 0.0 {
      PercentOfTotal(total, PctSum(ps));
    }
  }

  /** Fixed-amount split: each share is the supplied amount (missing = 0) and
      its percentage is amount / Total * 100. */
  lemma FixedAmountSplitEntries(total: real, ps: seq<SplitParticipantDto>)
    requires total != 0.0
    ensures var r := FixedAmountSplit(total, ps);
      && r.Ok?
      && forall i :: 0 <= i < |r.value| ==>
           && r.value[i].shareAmount == Amount(ps[i])
           && r.value[i].sharePercentage == Amount(ps[i]) / total * 100.0
  {
  }

  /** Fixed-amount split: the percentages add up to 100 exactly when the
      amounts add up to the total -- which nothing checks. */
  lemma FixedAmountSplitScales(total: real, ps: seq<SplitParticipantDto>)
    requires total != 0.0
    ensures var r := FixedAmountSplit(total, ps);
      && r.Ok?
      && ShareTotal(r.value) == AmountSum(ps)
      && PercentageTotal(r.value) == AmountSum(ps) / total * 100.0
      && (PercentageTotal(r.value) == 100.0 <==> ShareTotal(r.value) == total)
  {
    if ps == [] {
      ShareOfTotal(0.0, total);
    } else {
      SelectTotals(FixedAmountFormula(total), ps);
      FixedAmountTotals(total, ps);
      ShareOfTotal(AmountSum(ps), total);
    }
  }

  /** A successful by-shares split of a non-empty list divides by the unit total. */
  lemma BySharesSplitSelects(total: real, ps: seq<SplitParticipantDto>)
    requires BySharesSplit(total, ps).Ok? && |ps| > 0
    ensures UnitsSum(ps) != 0
    ensures BySharesSplit(total, ps) == Ok(Select(BySharesFormula(total, UnitsSum(ps)), ps))
  {
    assert TotalShares(ps) == Some(UnitsSum(ps));
  }

  lemma BySharesSelectEntries(total: real, n: int, ps: seq<SplitParticipantDto>)
    requires n != 0
    ensures var r := Select(BySharesFormula(total, n), ps);
      forall i :: 0 <= i < |r| ==>
        && r[i].shareAmount == total * (Units(ps[i]) as real) / (n as real)
        && r[i].sharePercentage == (Units(ps[i]) as real) / (n as real) * 100.0
  {
    var f := BySharesFormula(total, n);
    var r := Select(f, ps);
    forall i | 0 <= i < |r|
      ensures r[i].shareAmount == total * (Units(ps[i]) as real) / (n as real)
      ensures r[i].sharePercentage == (Units(ps[i]) as real) / (n as real) * 100.0
    {
      assert r[i] == ShareOf(f, ps[i]);
      BySharesEntry(total, n, ps[i]);
    }
  }

  lemma BySharesEntry(total: real, n: int, p: SplitParticipantDto)
    requires n != 0
    ensures ShareOf(BySharesFormula(total, n), p).shareAmount == total * (Units(p) as real) / (n as real)
    ensures ShareOf(BySharesFormula(total, n), p).sharePercentage == (Units(p) as real) / (n as real) * 100.0
  {}

  lemma BySharesSelectAmounts(total: real, n: int, ps: seq<SplitParticipantDto>)
    requires n != 0 && n == UnitsSum(ps)
    ensures ShareTotal(Select(BySharesFormula(total, n), ps)) == total
  {
    SelectTotals(BySharesFormula(total, n), ps);
    BySharesAmountTotal(total, n, ps);
    MulDivCancel(total, n as real);
  }

  lemma BySharesSelectPercents(total: real, n: int, ps: seq<SplitParticipantDto>)
    requires n != 0 && n == UnitsSum(ps)
    ensures PercentageTotal(Select(BySharesFormula(total, n), ps)) == 100.0
  {
    SelectTotals(BySharesFormula(total, n), ps);
    BySharesPercentTotal(total, n, ps);
    SelfQuotient(n as real);
  }

  /** By-shares split: with a non-zero unit total, each participant owes
      Total * units / totalShares and holds units / totalShares * 100 percent. */
  lemma BySharesSplitEntries(total: real, ps: seq<SplitParticipantDto>)
    requires BySharesSplit(total, ps).Ok? && |ps| > 0
    ensures var r := BySharesSplit(total, ps);
      && UnitsSum(ps) != 0
      && forall i :: 0 <= i < |r.value| ==>
           && r.value[i].shareAmount == total * (Units(ps[i]) as real) / (UnitsSum(ps) as real)
           && r.value[i].sharePercentage == (Units(ps[i]) as real) / (UnitsSum(ps) as real) * 100.0
  {
    BySharesSplitSelects(total, ps);
    BySharesSelectEntries(total, UnitsSum(ps), ps);
  }

  /** By-shares split: with a non-zero unit total the shares add up to the
      total and the percentages to 100. */
  lemma BySharesSplitReconciles(total: real, ps: seq<SplitParticipantDto>)
    requires BySharesSplit(total, ps).Ok? && |ps| > 0
    ensures var r := BySharesSplit(total, ps);
      && ShareTotal(r.value) == total
      && PercentageTotal(r.value) == 100.0
  {
    BySharesSplitSelects(total, ps);
    BySharesSelectAmounts(total, UnitsSum(ps), ps);
    BySharesSelectPercents(total, UnitsSum(ps), ps);
  }

  /** A split created with the equal or the by-shares strategy for at least
      one participant owes back exactly what its payer fronted. */
  lemma NewSplitReconciles(req: CreateSplitRequest)
    requires req.splitType == Equal || req.splitType == ByShares
    requires NewSplit(req).Ok? && |req.participants| > 0
    ensures ShareTotal(NewSplit(req).value.participants) == NewSplit(req).value.splitAmount
  {
    if req.splitType == Equal {
      EqualSplitReconciles(req.totalAmount, req.participants);
    } else {
      BySharesSplitReconciles(req.totalAmount, req.participants);
    }
  }
}
