/** Shared domain vocabulary: identifiers, the optional and result wrappers, and the
    domain errors that the aggregates raise instead of throwing a DomainException. */
module Common {

  /** A Guid is a 128-bit value; `default(Guid)` is the all-zero Guid. */
  newtype Guid = x: int | 0 <= x < 0x1_0000_0000_0000_0000_0000_0000_0000_0000

  /** `default(Guid)`, which the validators reject as an "empty" id. */
  const EmptyGuid: Guid := 0

  datatype Option<+T> = None | Some(value: T)

  /** What a factory or finder returns: the value, or the domain error it would throw. */
  datatype Result<+T> = Success(value: T) | Failure(error: DomainError)

  /** What a void operation returns: it completed, or it threw the given domain error. */
  datatype Outcome = Pass | Fail(error: DomainError)

  /** One constructor per distinct DomainException message raised by the domain model. */
  datatype DomainError =
    // Board
    | BoardNameEmpty
    | BoardNameTooLong(max: nat)
    | ProjectIdEmpty
    | ColumnCountMismatch
    | ColumnNotFound(columnId: Guid)
    | ColumnHasCards
    | CardNotFound(cardId: Guid)
    | NegativeTargetPosition
    // Position
    | PositionNegative
    // Column
    | ColumnNameEmpty
    | ColumnNameTooLong(max: nat)
    // Card
    | ColumnIdEmpty
    | LabelAlreadyAssigned
    | LabelNotAssigned
    // Label
    | LabelNameEmpty
    | LabelNameTooLong(max: nat)
    | LabelColorEmpty
    | LabelColorInvalid(color: string)
    // CardContent
    | CardTitleEmpty
    | CardTitleTooLong(max: nat)
    | CardDescriptionTooLong(max: nat)
    // Project
    | ProjectNameEmpty
    | ProjectNameTooLong(max: nat)
    | ProjectDescriptionTooLong(max: nat)
    | OwnerIdEmpty
    // User
    | EmailEmpty
    | EmailTooLong(max: nat)
    | EmailMissingAt
    | DisplayNameEmpty
    | DisplayNameTooLong(max: nat)
}
