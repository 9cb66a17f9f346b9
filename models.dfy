/** Records and enumerations of the split-spending service, as plain values.
    Money (C# `decimal`) is modelled as `real`; identifiers and timestamps are
    opaque numbers supplied from outside. */
module Models {

  /** A database identifier (C# `Guid`). */
  type Guid = nat

  /** A point in time (C# `DateTime`), e.g. ticks. */
  type DateTime = int

  /** The range of a C# `int`. */
  predicate InInt32(x: int) {
    -0x8000_0000 <= x <= 0x7fff_ffff
  }

  type Int32 = x: int | InInt32(x)

  datatype Option<T> = None | Some(value: T) {
    /** C#'s `??` operator: the value, or `default` when absent. */
    function GetOr(default: T): T {
      match this
      case Some(v) => v
      case None => default
    }
  }

  /** The exceptions the core can raise. */
  datatype Error =
    | DivideByZero          // decimal division by zero
    | Overflow              // checked `int` summation left the 32-bit range
    | NotFound(message: string)

  datatype Result<T> = Ok(value: T) | Err(error: Error)

  datatype SplitType = Equal | Percentage | FixedAmount | ByShares

  datatype SettlementStatus = Pending | Completed | Cancelled

  /** One member's share of a split (persisted). */
  datatype SplitParticipant = SplitParticipant(
    memberId: string,
    memberName: string,
    shareAmount: real,
    sharePercentage: real,
    isPaid: bool,
    paidAt: Option<DateTime>)

  /** A shared expense: the payer fronted `splitAmount`, the participants owe their shares. */
  datatype SpendingSplit = SpendingSplit(
    transactionId: Guid,
    tripId: Guid,
    splitAmount: real,
    splitType: SplitType,
    currency: string,
    payerId: string,
    payerName: string,
    participants: seq<SplitParticipant>)

  /** A transfer that settles (part of) a debt between two members. */
  datatype Settlement = Settlement(
    id: Guid,
    tripId: Guid,
    fromMemberId: string,
    fromMemberName: string,
    toMemberId: string,
    toMemberName: string,
    amount: real,
    currency: string,
    status: SettlementStatus,
    createdAt: DateTime,
    settledAt: Option<DateTime>)

  /** A participant as the client describes it; the strategy-specific fields are optional. */
  datatype SplitParticipantDto = SplitParticipantDto(
    memberId: string,
    memberName: string,
    shareAmount: Option<real>,
    sharePercentage: Option<real>,
    shares: Option<Int32>)

  /** The request that creates or replaces a split (tag names are not modelled). */
  datatype CreateSplitRequest = CreateSplitRequest(
    transactionId: Guid,
    tripId: Guid,
    totalAmount: real,
    splitType: SplitType,
    currency: string,
    payerId: string,
    payerName: string,
    participants: seq<SplitParticipantDto>)

  /** Sum of the share amounts of a participant list. */
  function ShareTotal(ps: seq<SplitParticipant>): real {
    if ps == [] then 0.0 else ShareTotal(ps[..|ps| - 1]) + ps[|ps| - 1].shareAmount
  }

  /** Sum of the share percentages of a participant list. */
  function PercentageTotal(ps: seq<SplitParticipant>): real {
    if ps == [] then 0.0 else PercentageTotal(ps[..|ps| - 1]) + ps[|ps| - 1].sharePercentage
  }
}
