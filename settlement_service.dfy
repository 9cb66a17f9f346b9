/** `SettlementService`: computing a trip's settlements from its splits, and
    marking a settlement completed.  The database table of settlements is a
    map from identifier to record; the table of splits is passed in as the
    sequence the query returns. */
module SettlementService {
  import opened Models
  import opened Balances
  import opened Ranking
  import opened Matching

  /** The query `Where(s => s.TripId == tripId)` on the stored splits, keeping
      their order and every copy. */
  function ForTrip(splits: seq<SpendingSplit>, tripId: Guid): (r: seq<SpendingSplit>)
    ensures forall s :: s in r <==> s in splits && s.tripId == tripId
    ensures forall s :: multiset(r)[s] == if s.tripId == tripId then multiset(splits)[s] else 0
    ensures |r| <= |splits|
  {
    if splits == [] then []
    else
      var front := splits[..|splits| - 1];
      var last := splits[|splits| - 1];
      assert splits == front + [last];
      if last.tripId == tripId then ForTrip(front, tripId) + [last] else ForTrip(front, tripId)
  }

  /** A trip whose splits all owe back what their payers fronted has
      balances that cancel out. */
  lemma ReconciledTripNetsToZero(splits: seq<SpendingSplit>, tripId: Guid)
    requires forall i :: 0 <= i < |splits| ==> ShareTotal(splits[i].participants) == splits[i].splitAmount
    ensures NetFlow(ForTrip(splits, tripId)) == 0.0
  {
    var trip := ForTrip(splits, tripId);
    forall i | 0 <= i < |trip| ensures ShareTotal(trip[i].participants) == trip[i].splitAmount {
      assert trip[i] in splits;
    }
    ReconciledSplitsNetToZero(trip);
  }

  /** What a list of settlements achieves for a trip with net balances
      `NetBalance(trip, _)`: money only flows from members who owe to
      members who are owed, at most once per pair and never more than the
      balance, and all debts (credits) are cleared when the credit (debt)
      suffices to cover them. */
  ghost predicate Settles(trip: seq<SpendingSplit>, s: seq<Settlement>) {
    && (forall k :: 0 <= k < |s| ==>
          NetBalance(trip, s[k].fromMemberId) < 0.0 && NetBalance(trip, s[k].toMemberId) > 0.0)
    && DistinctPairs(s)
    && |s| <= |Roster(trip)|
    && (forall m :: NetBalance(trip, m) >= 0.0 ==> Outgoing(s, m) == 0.0)
    && (forall m :: NetBalance(trip, m) <= 0.0 ==> Incoming(s, m) == 0.0)
    && (forall m :: NetBalance(trip, m) < 0.0 ==> Outgoing(s, m) <= -NetBalance(trip, m))
    && (forall m :: NetBalance(trip, m) > 0.0 ==> Incoming(s, m) <= NetBalance(trip, m))
    && (NetFlow(trip) >= 0.0 ==> forall m :: NetBalance(trip, m) < 0.0 ==> Outgoing(s, m) == -NetBalance(trip, m))
    && (NetFlow(trip) <= 0.0 ==> forall m :: NetBalance(trip, m) > 0.0 ==> Incoming(s, m) == NetBalance(trip, m))
  }

  /** When the balances cancel out, every member ends up even: what they
      receive minus what they pay is their balance. */
  lemma SettlesClears(trip: seq<SpendingSplit>, s: seq<Settlement>)
    requires Settles(trip, s) && NetFlow(trip) == 0.0
    ensures forall m :: Incoming(s, m) - Outgoing(s, m) == NetBalance(trip, m)
  {
    forall m ensures Incoming(s, m) - Outgoing(s, m) == NetBalance(trip, m) {
      if NetBalance(trip, m) < 0.0 {
        assert Incoming(s, m) == 0.0;
      } else if NetBalance(trip, m) > 0.0 {
        assert Outgoing(s, m) == 0.0;
      }
    }
  }

  /** The debtors are the members with a negative net balance and the
      creditors those with a positive one. */
  lemma Sides(trip: seq<SpendingSplit>, members: seq<string>, balances: map<string, real>)
    requires Tracks(members, balances)
    requires forall m :: Get(balances, m) == NetBalance(trip, m)
    ensures forall m :: m in Debtors(members, balances) <==> NetBalance(trip, m) < 0.0
    ensures forall m :: m in Creditors(members, balances) <==> NetBalance(trip, m) > 0.0
  {
    forall m | NetBalance(trip, m) != 0.0 ensures m in members {
      assert m in balances;
    }
  }

  /** The greedy loop's per-list bounds, restated for every member. */
  lemma FlowsBySide(trip: seq<SpendingSplit>, creditors: seq<string>, debtors: seq<string>,
                    balances: map<string, real>, s: seq<Settlement>)
    requires forall m :: m in debtors <==> NetBalance(trip, m) < 0.0
    requires forall m :: m in creditors <==> NetBalance(trip, m) > 0.0
    requires forall m :: Get(balances, m) == NetBalance(trip, m)
    requires forall k :: 0 <= k < |s| ==> s[k].fromMemberId in debtors && s[k].toMemberId in creditors
    requires forall k :: 0 <= k < |debtors| ==> Outgoing(s, debtors[k]) <= -Get(balances, debtors[k])
    requires forall k :: 0 <= k < |creditors| ==> Incoming(s, creditors[k]) <= Get(balances, creditors[k])
    ensures forall k :: 0 <= k < |s| ==>
      NetBalance(trip, s[k].fromMemberId) < 0.0 && NetBalance(trip, s[k].toMemberId) > 0.0
    ensures forall m :: NetBalance(trip, m) >= 0.0 ==> Outgoing(s, m) == 0.0
    ensures forall m :: NetBalance(trip, m) <= 0.0 ==> Incoming(s, m) == 0.0
    ensures forall m :: NetBalance(trip, m) < 0.0 ==> Outgoing(s, m) <= -NetBalance(trip, m)
    ensures forall m :: NetBalance(trip, m) > 0.0 ==> Incoming(s, m) <= NetBalance(trip, m)
  {
    forall m | NetBalance(trip, m) >= 0.0 ensures Outgoing(s, m) == 0.0 {
      OutgoingNone(s, m);
    }
    forall m | NetBalance(trip, m) <= 0.0 ensures Incoming(s, m) == 0.0 {
      IncomingNone(s, m);
    }
  }

  /** The greedy loop's clearing guarantees, restated for every member. */
  lemma ClearingBySide(trip: seq<SpendingSplit>, creditors: seq<string>, debtors: seq<string>,
                       balances: map<string, real>, s: seq<Settlement>)
    requires forall m :: m in debtors <==> NetBalance(trip, m) < 0.0
    requires forall m :: m in creditors <==> NetBalance(trip, m) > 0.0
    requires forall m :: Get(balances, m) == NetBalance(trip, m)
    requires SumOver(creditors, balances) + SumOver(debtors, balances) == NetFlow(trip)
    requires -SumOver(debtors, balances) <= SumOver(creditors, balances) ==>
      forall k :: 0 <= k < |debtors| ==> Outgoing(s, debtors[k]) == -Get(balances, debtors[k])
    requires SumOver(creditors, balances) <= -SumOver(debtors, balances) ==>
      forall k :: 0 <= k < |creditors| ==> Incoming(s, creditors[k]) == Get(balances, creditors[k])
    ensures NetFlow(trip) >= 0.0 ==> forall m :: NetBalance(trip, m) < 0.0 ==> Outgoing(s, m) == -NetBalance(trip, m)
    ensures NetFlow(trip) <= 0.0 ==> forall m :: NetBalance(trip, m) > 0.0 ==> Incoming(s, m) == NetBalance(trip, m)
  {
  }

  /** The computing part of `CalculateSettlementsAsync`: the settlements for trip `tripId`, computed from all the
      stored splits.  The k-th settlement gets the identifier `firstId + k`
      and the creation time `now`. */
  method PlanSettlements(tripId: Guid, splits: seq<SpendingSplit>, firstId: Guid, now: DateTime)
    returns (settlements: seq<Settlement>)
    ensures forall k :: 0 <= k < |settlements| ==> Issued(settlements[k], firstId + k, tripId, now)
    ensures Settles(ForTrip(splits, tripId), settlements)
    ensures NetFlow(ForTrip(splits, tripId)) == 0.0 ==>
      forall m :: Incoming(settlements, m) - Outgoing(settlements, m) == NetBalance(ForTrip(splits, tripId), m)
  {
    var trip := ForTrip(splits, tripId);
    var members, balances := AggregateBalances(trip);
    var creditors := Creditors(members, balances);
    var debtors := Debtors(members, balances);
    settlements := MatchDebts(tripId, creditors, debtors, balances, firstId, now);
    Sides(trip, members, balances);
    PartitionSum(members, balances);
    PartitionLength(members, balances);
    FlowsBySide(trip, creditors, debtors, balances, settlements);
    ClearingBySide(trip, creditors, debtors, balances, settlements);
    if NetFlow(trip) == 0.0 {
      SettlesClears(trip, settlements);
    }
  }

  /** The update made by `MarkSettlementCompletedAsync`: the settlement marked completed at time `now`. */
  function Complete(s: Settlement, now: DateTime): (r: Settlement)
    ensures r.status == Completed && r.settledAt == Some(now)
    ensures r.(status := s.status, settledAt := s.settledAt) == s
  {
    s.(status := Completed, settledAt := Some(now))
  }

  /** Completion does not look at the prior status: a cancelled or already
      completed settlement is (re)completed like a pending one. */
  lemma CompleteIgnoresStatus(s: Settlement, status: SettlementStatus, settledAt: Option<DateTime>, now: DateTime)
    ensures Complete(s.(status := status, settledAt := settledAt), now) == Complete(s, now)
  {
  }

  /** Completing twice is completing once, at the later time. */
  lemma CompleteTwice(s: Settlement, first: DateTime, second: DateTime)
    ensures Complete(Complete(s, first), second) == Complete(s, second)
  {
  }

  /** The table a list of settlements adds (`AddRange`), keyed by identifier. */
  function Table(s: seq<Settlement>): (r: map<Guid, Settlement>)
    ensures forall id :: id in r ==> r[id].id == id
  {
    if s == [] then map[] else Table(s[..|s| - 1])[s[|s| - 1].id := s[|s| - 1]]
  }

  /** Settlements with consecutive identifiers from `first` fill exactly those
      keys of the table, each with its own record. */
  lemma {:induction false} TableIds(s: seq<Settlement>, first: Guid)
    requires forall k :: 0 <= k < |s| ==> s[k].id == first + k
    ensures forall id :: id in Table(s) <==> first <= id < first + |s|
    ensures forall k :: 0 <= k < |s| ==> Table(s)[s[k].id] == s[k]
  {
    if s != [] {
      var front := s[..|s| - 1];
      assert forall k :: 0 <= k < |front| ==> front[k] == s[k];
      TableIds(front, first);
    }
  }

  /** The settlements table (`_context.Settlements`), with the identifiers it
      will hand out next. */
  class SettlementStore {
    var rows: map<Guid, Settlement>
    var nextId: Guid

    /** Every row is stored under its own identifier, and every identifier
        handed out so far is below `nextId`. */
    ghost predicate Valid()
      reads this
    {
      forall id :: id in rows ==> rows[id].id == id && id < nextId
    }

    constructor ()
      ensures Valid() && rows == map[] && nextId == 0
    {
      rows := map[];
      nextId := 0;
    }

    /** `CalculateSettlementsAsync`: computes the trip's
        settlements with fresh identifiers and saves them. */
    method CalculateSettlements(tripId: Guid, splits: seq<SpendingSplit>, now: DateTime)
      returns (created: seq<Settlement>)
      requires Valid()
      modifies this
      ensures Valid()
      ensures forall k :: 0 <= k < |created| ==> Issued(created[k], old(nextId) + k, tripId, now)
      ensures Settles(ForTrip(splits, tripId), created)
      ensures rows == old(rows) + Table(created)
      ensures forall id :: id in old(rows) ==> id in rows && rows[id] == old(rows)[id]
      ensures forall k :: 0 <= k < |created| ==> created[k].id in rows && rows[created[k].id] == created[k]
      ensures nextId == old(nextId) + |created|
    {
      created := PlanSettlements(tripId, splits, nextId, now);
      TableIds(created, nextId);
      rows := rows + Table(created);
      nextId := nextId + |created|;
    }

    /** `MarkSettlementCompletedAsync`: an unknown identifier
        is an error; otherwise the settlement is completed at `now`, whatever
        its status was, and nothing else in the table changes. */
    method MarkSettlementCompleted(id: Guid, now: DateTime) returns (r: Result<Settlement>)
      requires Valid()
      modifies this
      ensures Valid()
      ensures nextId == old(nextId)
      ensures id !in old(rows) ==> r == Err(NotFound("Settlement not found")) && rows == old(rows)
      ensures id in old(rows) ==> r == Ok(Complete(old(rows)[id], now)) && rows == old(rows)[id := r.value]
    {
      if id !in rows {
        return Err(NotFound("Settlement not found"));
      }
      var completed := Complete(rows[id], now);
      rows := rows[id := completed];
      return Ok(completed);
    }
  }
}
