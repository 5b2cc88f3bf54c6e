/**
  Option and Result values, and the failures the services raise.

  The Java services signal failure with two unchecked exceptions,
  `NotFoundException` and `BusinessRuleException`, each carrying a message.
  Here a failure is a value: its kind says which exception, its `Reason`
  says which message.
 */
module Wrappers {

  datatype Option<T> = None | Some(value: T)

  /** One constructor per exception message the circulation core can raise. */
  datatype Reason =
    | BookNotFound
    | BookNotFoundAfterInsert
    | MemberNotFound
    | MemberNotFoundAfterInsert
    | LoanNotFound
    | LoanNotFoundAfterInsert
    | ReservationNotFound
      // "No available copies; reservation created: <id>"
    | NoCopiesReservationCreated(reservationId: nat)
    | MaxActiveLoansReached
    | OverdueLoans
    | NoCopiesToBorrow
    | LoanAlreadyReturned
    | ReservationNotFoundOrProcessed
    | CopiesExceedTotal
    | IsbnExists
    | EmailExists

  datatype Failure = NotFound(reason: Reason) | BusinessRule(reason: Reason)

  datatype Result<T> = Ok(value: T) | Err(failure: Failure)
}
