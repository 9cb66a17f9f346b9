/** The per-member ledger of a trip: what each member paid minus what each
    member owes, aggregated over the trip's splits.  The C# `Dictionary<string,
    decimal>` is modelled as a `map` together with the sequence of its keys in
    insertion order (the order a dictionary that is only ever added to
    enumerates them in). */
module Balances {
  import opened Models

  // ---------------------------------------------------------------------
  // Sequences of member ids

  predicate Distinct(ms: seq<string>) {
    forall i, j :: 0 <= i < j < |ms| ==> ms[i] != ms[j]
  }

  /** The balance of `m`, or 0 when `m` has no entry. */
  function Get(bal: map<string, real>, m: string): real {
    if m in bal then bal[m] else 0.0
  }

  /** Sum of the balances of the members listed in `ms`. */
  function SumOver(ms: seq<string>, bal: map<string, real>): real {
    if ms == [] then 0.0 else SumOver(ms[..|ms| - 1], bal) + Get(bal, ms[|ms| - 1])
  }

  /** The dictionary's key order: `k` is appended the first time it is seen. */
  function Enrol(ms: seq<string>, k: string): (r: seq<string>)
    ensures Distinct(ms) ==> Distinct(r)
    ensures forall m :: m in r <==> m in ms || m == k
  {
    if k in ms then ms else ms + [k]
  }

  /** A key sequence and a map describe the same dictionary. */
  ghost predicate Tracks(ms: seq<string>, bal: map<string, real>) {
    && Distinct(ms)
    && forall m :: m in bal <==> m in ms
  }

  lemma SumOverSnoc(ms: seq<string>, k: string, bal: map<string, real>)
    ensures SumOver(ms + [k], bal) == SumOver(ms, bal) + Get(bal, k)
  {
    assert (ms + [k])[..|ms|] == ms;
  }

  /** Changing the balance of a member not listed leaves the sum alone. */
  lemma {:induction false} SumOverUnchanged(ms: seq<string>, bal: map<string, real>, k: string, v: real)
    requires k !in ms
    ensures SumOver(ms, bal[k := v]) == SumOver(ms, bal)
  {
    if ms != [] {
      SumOverUnchanged(ms[..|ms| - 1], bal, k, v);
    }
  }

  /** Changing the balance of a member listed once moves the sum by the difference. */
  lemma {:induction false} SumOverUpdate(ms: seq<string>, bal: map<string, real>, k: string, v: real)
    requires Distinct(ms) && k in ms
    ensures SumOver(ms, bal[k := v]) == SumOver(ms, bal) - Get(bal, k) + v
  {
    var front := ms[..|ms| - 1];
    if ms[|ms| - 1] == k {
      assert k !in front;
      SumOverUnchanged(front, bal, k, v);
    } else {
      assert k in front;
      SumOverUpdate(front, bal, k, v);
    }
  }

  // ---------------------------------------------------------------------
  // What the ledger should hold

  /** What `m` owes in a participant list. */
  function OwedIn(ps: seq<SplitParticipant>, m: string): real {
    if ps == [] then 0.0
    else OwedIn(ps[..|ps| - 1], m) + (if ps[|ps| - 1].memberId == m then ps[|ps| - 1].shareAmount else 0.0)
  }

  /** What `m` fronted for a split. */
  function PaidIn(s: SpendingSplit, m: string): real {
    if s.payerId == m then s.splitAmount else 0.0
  }

  /** The net balance of `m` over a list of splits: positive means `m` is owed money. */
  function NetBalance(splits: seq<SpendingSplit>, m: string): real {
    if splits == [] then 0.0
    else
      var s := splits[|splits| - 1];
      NetBalance(splits[..|splits| - 1], m) + PaidIn(s, m) - OwedIn(s.participants, m)
  }

  /** The money that enters the ledger and is not owed back: each split's
      amount minus its shares. */
  function NetFlow(splits: seq<SpendingSplit>): real {
    if splits == [] then 0.0
    else
      var s := splits[|splits| - 1];
      NetFlow(splits[..|splits| - 1]) + s.splitAmount - ShareTotal(s.participants)
  }

  /** The members a participant list adds to the ledger, in order. */
  function EnrolParticipants(ms: seq<string>, ps: seq<SplitParticipant>): seq<string> {
    if ps == [] then ms else Enrol(EnrolParticipants(ms, ps[..|ps| - 1]), ps[|ps| - 1].memberId)
  }

  /** The ledger's members in the order they are first seen: each split's
      payer, then its participants. */
  function Roster(splits: seq<SpendingSplit>): seq<string> {
    if splits == [] then []
    else
      var s := splits[|splits| - 1];
      EnrolParticipants(Enrol(Roster(splits[..|splits| - 1]), s.payerId), s.participants)
  }

  predicate InParticipants(ps: seq<SplitParticipant>, m: string) {
    exists j :: 0 <= j < |ps| && ps[j].memberId == m
  }

  /** `m` pays for or takes part in one of the splits. */
  predicate Involved(splits: seq<SpendingSplit>, m: string) {
    exists i :: 0 <= i < |splits| && (splits[i].payerId == m || InParticipants(splits[i].participants, m))
  }

  lemma {:induction false} EnrolParticipantsMembers(ms: seq<string>, ps: seq<SplitParticipant>)
    ensures Distinct(ms) ==> Distinct(EnrolParticipants(ms, ps))
    ensures forall m :: m in EnrolParticipants(ms, ps) <==> m in ms || InParticipants(ps, m)
  {
    if ps != [] {
      var front := ps[..|ps| - 1];
      EnrolParticipantsMembers(ms, front);
      forall m ensures InParticipants(ps, m) <==> InParticipants(front, m) || ps[|ps| - 1].memberId == m {
        if InParticipants(ps, m) && ps[|ps| - 1].memberId != m {
          var j :| 0 <= j < |ps| && ps[j].memberId == m;
          assert front[j].memberId == m;
        }
        if InParticipants(front, m) {
          var j :| 0 <= j < |front| && front[j].memberId == m;
          assert ps[j].memberId == m;
        }
      }
    }
  }

  /** The ledger lists each member once, and exactly the members involved in some split. */
  lemma {:induction false} RosterMembers(splits: seq<SpendingSplit>)
    ensures Distinct(Roster(splits))
    ensures forall m :: m in Roster(splits) <==> Involved(splits, m)
  {
    if splits != [] {
      var front := splits[..|splits| - 1];
      var s := splits[|splits| - 1];
      RosterMembers(front);
      EnrolParticipantsMembers(Enrol(Roster(front), s.payerId), s.participants);
      forall m ensures Involved(splits, m) <==> Involved(front, m) || s.payerId == m || InParticipants(s.participants, m) {
        if Involved(splits, m) && !(s.payerId == m || InParticipants(s.participants, m)) {
          var i :| 0 <= i < |splits| && (splits[i].payerId == m || InParticipants(splits[i].participants, m));
          assert front[i] == splits[i];
        }
        if Involved(front, m) {
          var i :| 0 <= i < |front| && (front[i].payerId == m || InParticipants(front[i].participants, m));
          assert splits[i] == front[i];
        }
      }
    }
  }

  lemma {:induction false} OwedInNone(ps: seq<SplitParticipant>, m: string)
    requires !InParticipants(ps, m)
    ensures OwedIn(ps, m) == 0.0
  {
    if ps != [] {
      var front := ps[..|ps| - 1];
      assert !InParticipants(front, m) by {
        forall j | 0 <= j < |front| ensures front[j].memberId != m {
          assert front[j] == ps[j];
        }
      }
      OwedInNone(front, m);
    }
  }

  /** A member who neither pays nor takes part has a zero balance. */
  lemma {:induction false} NetBalanceUninvolved(splits: seq<SpendingSplit>, m: string)
    requires !Involved(splits, m)
    ensures NetBalance(splits, m) == 0.0
  {
    if splits != [] {
      var front := splits[..|splits| - 1];
      var s := splits[|splits| - 1];
      assert !Involved(front, m) by {
        forall i | 0 <= i < |front| ensures !(front[i].payerId == m || InParticipants(front[i].participants, m)) {
          assert front[i] == splits[i];
        }
      }
      NetBalanceUninvolved(front, m);
      assert !InParticipants(s.participants, m) && s.payerId != m by {
        assert splits[|splits| - 1] == s;
      }
      OwedInNone(s.participants, m);
    }
  }

  /** When every split's shares add up to its amount, the balances cancel out. */
  lemma {:induction false} ReconciledSplitsNetToZero(splits: seq<SpendingSplit>)
    requires forall i :: 0 <= i < |splits| ==> ShareTotal(splits[i].participants) == splits[i].splitAmount
    ensures NetFlow(splits) == 0.0
  {
    if splits != [] {
      var front := splits[..|splits| - 1];
      assert forall i :: 0 <= i < |front| ==> front[i] == splits[i];
      ReconciledSplitsNetToZero(front);
    }
  }

  // ---------------------------------------------------------------------
  // The aggregation loop

  /** Extending a prefix of a participant list by one participant. */
  lemma ParticipantsStep(ms: seq<string>, ps: seq<SplitParticipant>, j: nat)
    requires j < |ps|
    ensures EnrolParticipants(ms, ps[..j + 1]) == Enrol(EnrolParticipants(ms, ps[..j]), ps[j].memberId)
    ensures forall m :: OwedIn(ps[..j + 1], m) == OwedIn(ps[..j], m) + (if ps[j].memberId == m then ps[j].shareAmount else 0.0)
    ensures ShareTotal(ps[..j + 1]) == ShareTotal(ps[..j]) + ps[j].shareAmount
  {
    assert ps[..j + 1][..j] == ps[..j];
  }

  /** Extending a prefix of a list of splits by one split. */
  lemma SplitsStep(splits: seq<SpendingSplit>, i: nat)
    requires i < |splits|
    ensures var s := splits[i];
      Roster(splits[..i + 1]) == EnrolParticipants(Enrol(Roster(splits[..i]), s.payerId), s.participants)
    ensures forall m ::
      NetBalance(splits[..i + 1], m) == NetBalance(splits[..i], m) + PaidIn(splits[i], m) - OwedIn(splits[i].participants, m)
    ensures NetFlow(splits[..i + 1]) == NetFlow(splits[..i]) + splits[i].splitAmount - ShareTotal(splits[i].participants)
  {
    assert splits[..i + 1][..i] == splits[..i];
  }

  /** `if (!d.ContainsKey(key)) d[key] = 0; d[key] += delta;` */
  method Post(members: seq<string>, balances: map<string, real>, key: string, delta: real)
    returns (members': seq<string>, balances': map<string, real>)
    requires Tracks(members, balances)
    ensures Tracks(members', balances')
    ensures members' == Enrol(members, key)
    ensures forall m :: Get(balances', m) == Get(balances, m) + (if m == key then delta else 0.0)
    ensures SumOver(members', balances') == SumOver(members, balances) + delta
  {
    members', balances' := members, balances;
    if key !in balances' {
      balances' := balances'[key := 0.0];
      SumOverUnchanged(members', balances, key, 0.0);
      SumOverSnoc(members', key, balances');
      members' := members' + [key];
    }
    SumOverUpdate(members', balances', key, balances'[key] + delta);
    balances' := balances'[key := balances'[key] + delta];
  }

  /** One split of the balance loop of `CalculateSettlementsAsync` credits its payer and debits its participants. */
  method PostSplit(members: seq<string>, balances: map<string, real>, split: SpendingSplit)
    returns (members': seq<string>, balances': map<string, real>)
    requires Tracks(members, balances)
    ensures Tracks(members', balances')
    ensures members' == EnrolParticipants(Enrol(members, split.payerId), split.participants)
    ensures forall m :: Get(balances', m) == Get(balances, m) + PaidIn(split, m) - OwedIn(split.participants, m)
    ensures SumOver(members', balances') == SumOver(members, balances) + split.splitAmount - ShareTotal(split.participants)
  {
    members', balances' := Post(members, balances, split.payerId, split.splitAmount);
    var ps := split.participants;
    var j := 0;
    while j < |ps|
      invariant 0 <= j <= |ps|
      invariant Tracks(members', balances')
      invariant members' == EnrolParticipants(Enrol(members, split.payerId), ps[..j])
      invariant forall m :: Get(balances', m) == Get(balances, m) + PaidIn(split, m) - OwedIn(ps[..j], m)
      invariant SumOver(members', balances') == SumOver(members, balances) + split.splitAmount - ShareTotal(ps[..j])
    {
      var key, delta := ps[j].memberId, -ps[j].shareAmount;
      ParticipantsStep(Enrol(members, split.payerId), ps, j);
      ghost var before := balances';
      members', balances' := Post(members', balances', key, delta);
      forall m ensures Get(balances', m) == Get(balances, m) + PaidIn(split, m) - OwedIn(ps[..j + 1], m) {
        assert Get(balances', m) == Get(before, m) + (if m == key then delta else 0.0);
      }
      j := j + 1;
    }
    assert ps[..j] == ps;
  }

  /** The balance loop of `CalculateSettlementsAsync`: the payer of each split is credited with its amount and
      every participant is debited with their share. */
  method AggregateBalances(splits: seq<SpendingSplit>) returns (members: seq<string>, balances: map<string, real>)
    ensures Tracks(members, balances)
    ensures members == Roster(splits)
    ensures forall m :: Get(balances, m) == NetBalance(splits, m)
    ensures SumOver(members, balances) == NetFlow(splits)
  {
    members, balances := [], map[];
    var i := 0;
    while i < |splits|
      invariant 0 <= i <= |splits|
      invariant Tracks(members, balances)
      invariant members == Roster(splits[..i])
      invariant forall m :: Get(balances, m) == NetBalance(splits[..i], m)
      invariant SumOver(members, balances) == NetFlow(splits[..i])
    {
      SplitsStep(splits, i);
      ghost var before := balances;
      members, balances := PostSplit(members, balances, splits[i]);
      forall m ensures Get(balances, m) == NetBalance(splits[..i + 1], m) {
        assert Get(balances, m) == Get(before, m) + PaidIn(splits[i], m) - OwedIn(splits[i].participants, m);
      }
      i := i + 1;
    }
    assert splits[..i] == splits;
  }
}
