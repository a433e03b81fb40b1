# NeonBoard domain core in Dafny

This project models the domain layer of NeonBoard, a Kanban-style project and board
manager. The aggregates are:

- **Board**: owns its columns and cards and records domain events.
- **Project** and **User**: validated records.
- **Column**, **Card**, **Label**, **CardContent**, **Position** and the label colour palette.

The model follows the C# code's own form:

- **Classes for objects changed in place.** `Board`, `Column`, `Card`, `Label` and `Project` are classes. Their methods change fields in place and carry `modifies` clauses.
- **Board lists.** A board's `_columns` and `_cards` lists are `seq` fields of object references.
- **Loops.** The loops of `ReorderColumns`, `DeleteColumn`, `ResequenceCardsInColumn` and `ResequenceColumns` are `while` loops. Each has its own invariants.
- **Values.** `CardContent`, `Position` and `User` are datatypes, and their operations are functions.
- **Exceptions.** The C# code throws `DomainException`. Here that is a `Failure`/`Fail` result naming the rule that was broken. Every error case is modelled, and the checks run in the order of the source.

Module `BoardSpec` describes a board as two value lists:

- `seq<ColumnData>`, where each entry is (id, name, position);
- `seq<CardData>`, where each entry is (id, column, content, position, labels).

Every successful board operation is a function on these values. Each `Board` method is proved to change the views `ColumnsData(columns)` and `CardsData(cards)` exactly as its function says. Lemmas about those functions state the board's invariants and what each operation guarantees:

- the column positions are exactly 0..n-1;
- inside every column, the card positions are exactly 0..k-1;
- every card names an existing column;
- no card carries a label twice;
- resequencing is a stable sort by position followed by renumbering;
- a moved card lands where the stable sort puts it;
- deleting a column appends its cards, in list order, after the target's cards;
- deleting removes exactly one card or column.

Module `Ordering` holds the sorting machinery behind "stable sort by position, then renumber 0, 1, 2, ...":

- insertion sort on index lists, with `multiset` permutation facts;
- `Renumbered` and `Resequenced`;
- `Rank`.

Fresh identifiers (`Guid.NewGuid()`) are parameters `newId`. Each comes with a precondition that it is not already used in the collection it joins.

Facts about the code that the model keeps as they are:

- **Duplicate ids in `ReorderColumns`.** The code checks only the count and that every listed id exists, so a list with a repeated id is accepted. Each column then takes the last index naming it. `BoardSpec.ReorderWithDuplicateIdIsNotDense` shows that the positions are then no longer dense.
- **Tie-breaking in `MoveCard`.** When the moved card is given a position another card of the target column already holds, the stable sort breaks the tie by card-list order. `BoardSpec.MoveCardLanding` states the exact rule.
- **Position in `CardMoved`.** The event carries the requested `targetPosition`, which can differ from the position the card ends up with after resequencing.
- **Label operations.** `Board` has no label operations of its own. Labels are assigned through `Card.AddLabel`/`Card.RemoveLabel`.

## Model

| member | source | states |
|---|---|---|
| Boards.ValidateName | src/NeonBoard.Domain/Boards/Board.cs:273-280 | passes exactly for a non-blank name of at most 100 UTF-16 code units; a blank name gives BoardNameEmpty before the length is looked at, a long one BoardNameTooLong(100) |
| Boards.ValidateProjectId | src/NeonBoard.Domain/Boards/Board.cs:282-286 | passes exactly when the project id is not the empty Guid, otherwise ProjectIdEmpty |
| Boards.Board.FindColumn | src/NeonBoard.Domain/Boards/Board.cs:230-236 | succeeds exactly when some column has the id and then returns the first such index; otherwise ColumnNotFound(id) |
| Boards.Board.FindCard | src/NeonBoard.Domain/Boards/Board.cs:238-244 | succeeds exactly when some card has the id and then returns the first such index; otherwise CardNotFound(id) |
| Boards.Board.Create | src/NeonBoard.Domain/Boards/Board.cs:30-51 | fails with the name error, else with ProjectIdEmpty; a new board stores name and project, has no columns or cards, satisfies both invariants and holds exactly one BoardCreated event |
| Boards.Board.Rename | src/NeonBoard.Domain/Boards/Board.cs:53-61 | the outcome is the name check; on success the name is replaced and BoardRenamed appended, on failure nothing changes |
| Boards.Board.AddColumn | src/NeonBoard.Domain/Boards/Board.cs:65-80 | succeeds exactly for a valid column name; the new column is appended with position = old column count, ColumnAdded is recorded, the cards are untouched, and the invariants are kept |
| Boards.Board.RenameColumn | src/NeonBoard.Domain/Boards/Board.cs:82-87 | a missing column gives ColumnNotFound, else the outcome is the column's name check; only that column's name changes, no event is recorded, the invariants are kept |
| Boards.Board.CheckAllPresent | src/NeonBoard.Domain/Boards/Board.cs:94-98 | passes exactly when every listed id names a column; otherwise reports the first listed id that does not |
| Boards.Board.ReorderColumns | src/NeonBoard.Domain/Boards/Board.cs:89-111 | a count mismatch gives ColumnCountMismatch, a missing id ColumnNotFound of the first one; on success each column's position is the last index naming it and ColumnsReordered carries that map; a failure changes nothing |
| Boards.Board.AssignPositions | src/NeonBoard.Domain/Boards/Board.cs:100-106 | the loop leaves the columns as `Reordered` says and returns the id-to-index map `NewPositions` |
| Boards.Board.DeleteColumn | src/NeonBoard.Domain/Boards/Board.cs:113-144 | errors in source order (column missing, has cards without target, target missing); on success the columns and cards become DeleteColumnColumns/DeleteColumnCards of the old ones and ColumnDeleted is recorded; a failure changes nothing |
| Boards.Board.CheckDeleteColumn | src/NeonBoard.Domain/Boards/Board.cs:115-137 | the three checks of DeleteColumn in source order, changing nothing |
| Boards.Board.MigrateCardsInto | src/NeonBoard.Domain/Boards/Board.cs:123-129 | the migration loop leaves the cards exactly as `MigrateCards` says |
| Boards.Board.AddCard | src/NeonBoard.Domain/Boards/Board.cs:150-169 | errors in source order (column missing, content invalid, empty column id); on success the card list becomes AddCardSpec of the old one (new card at the end of its column) and CardCreated carries that position; a failure changes nothing; invariants kept |
| Boards.Board.UpdateCard | src/NeonBoard.Domain/Boards/Board.cs:171-184 | card missing gives CardNotFound, else the content check decides; on success only that card's content changes and CardUpdated is recorded; invariants kept |
| Boards.Board.MoveCard | src/NeonBoard.Domain/Boards/Board.cs:186-212 | errors in source order (card, target column, negative position); on success the cards become MoveCardSpec of the old ones and CardMoved carries source, target and the requested position; invariants kept |
| Boards.Board.DeleteCard | src/NeonBoard.Domain/Boards/Board.cs:214-224 | card missing gives CardNotFound; on success the cards become DeleteCardSpec of the old ones, exactly that id disappears, and CardDeleted names the former column; invariants kept |
| Boards.Board.ResequenceCardsInColumn | src/NeonBoard.Domain/Boards/Board.cs:251-261 | the cards become `ResequenceCards(old, c)`; the columns are untouched |
| Boards.Board.RenumberCards | src/NeonBoard.Domain/Boards/Board.cs:258-260 | after the loop the i-th card of the order has column c and position i (`CardsRenumbered`) |
| Boards.Board.ResequenceColumns | src/NeonBoard.Domain/Boards/Board.cs:263-271 | the columns become `ResequenceColumns(old)`; the cards are untouched |
| Boards.Board.RenumberColumns | src/NeonBoard.Domain/Boards/Board.cs:267-270 | after the loop the i-th column of the order has position i (`ColumnsRenumbered`) |
| BoardSpec.Members | src/NeonBoard.Domain/Boards/Board.cs:246-249 | `GetCardsInColumn` as indices: strictly increasing (list order), each naming a card of the column |
| BoardSpec.MembersComplete | src/NeonBoard.Domain/Boards/Board.cs:246-249 | every card of the column is listed |
| BoardSpec.CardOrder | src/NeonBoard.Domain/Boards/Board.cs:255-257 | the stable order of a column's cards: only cards of that column, and renumbering them along it gives `ResequenceCards` |
| BoardSpec.CardsRenumberedSpec | src/NeonBoard.Domain/Boards/Board.cs:258-260 | the state after n passes of the renumbering loop is the first n cards of the order renumbered 0..n-1 |
| BoardSpec.ColumnsRenumberedSpec | src/NeonBoard.Domain/Boards/Board.cs:267-270 | the state after n passes of the column loop is the first n columns of the order renumbered 0..n-1 |
| BoardSpec.ResequenceCardsShape | src/NeonBoard.Domain/Boards/Board.cs:251-261 | resequencing changes positions only, and only of the cards in that column |
| BoardSpec.ResequenceCardsDense | src/NeonBoard.Domain/Boards/Board.cs:251-261 | after resequencing, the column's card positions are exactly 0..k-1 |
| BoardSpec.ResequenceCardsOtherColumns | src/NeonBoard.Domain/Boards/Board.cs:251-261 | other columns' positions are unchanged |
| BoardSpec.ResequenceCardsOrder | src/NeonBoard.Domain/Boards/Board.cs:251-261 | new positions are ordered exactly as (old position, list index): a stable sort |
| BoardSpec.ResequenceDenseColumnIsIdentity | src/NeonBoard.Domain/Boards/Board.cs:251-261 | resequencing a column whose positions are already 0..k-1 changes nothing |
| BoardSpec.ResequenceColumnsSpec | src/NeonBoard.Domain/Boards/Board.cs:263-271 | only positions change, they become exactly 0..n-1, and they are ordered as (old position, list index) |
| BoardSpec.AddColumnKeepsConsistent | src/NeonBoard.Domain/Boards/Board.cs:65-80 | appending a column at position n keeps all four invariants |
| BoardSpec.Reordered | src/NeonBoard.Domain/Boards/Board.cs:100-106 | reordering keeps every column's id and name and the list length |
| BoardSpec.NewPositions | src/NeonBoard.Domain/Boards/Board.cs:100-106 | the map's keys are exactly the listed ids and each maps to the last index naming it |
| BoardSpec.ReorderDistinctIsPermutation | src/NeonBoard.Domain/Boards/Board.cs:89-111 | with distinct ids covering all columns, the column named at index k gets position k and positions are 0..n-1 |
| BoardSpec.ReorderWithDuplicateIdIsNotDense | src/NeonBoard.Domain/Boards/Board.cs:91-106 | a list with a repeated id passes both checks yet leaves the positions not dense |
| BoardSpec.ReorderKeepsConsistent | src/NeonBoard.Domain/Boards/Board.cs:89-111 | a reorder by distinct ids keeps all four invariants |
| BoardSpec.MigratedFinal | src/NeonBoard.Domain/Boards/Board.cs:123-129 | after the loop, the k-th listed card has the target column and position base + k; unlisted cards are unchanged |
| BoardSpec.MigrateCardsShape | src/NeonBoard.Domain/Boards/Board.cs:123-129 | migration moves exactly the cards of the deleted column to the target and leaves all other cards unchanged |
| BoardSpec.MigrateCardsPositions | src/NeonBoard.Domain/Boards/Board.cs:123-129 | target cards keep their positions, migrated cards get positions at or beyond the target's old count, in list order |
| BoardSpec.MigratedColumnIsEmpty | src/NeonBoard.Domain/Boards/Board.cs:123-129 | after migration to another column, no card is left in the deleted column |
| BoardSpec.DeleteColumnCardsShape | src/NeonBoard.Domain/Boards/Board.cs:118-131 | deleting a column changes only the column of its own cards (to the target) and positions |
| BoardSpec.DeleteColumnCardsDense | src/NeonBoard.Domain/Boards/Board.cs:118-131 | with a distinct target, every column's card positions stay exactly 0..k-1 |
| BoardSpec.DeleteColumnAppendsCards | src/NeonBoard.Domain/Boards/Board.cs:123-131 | every migrated card ends after every card the target already had |
| BoardSpec.DeleteColumnKeepsTargetOrder | src/NeonBoard.Domain/Boards/Board.cs:123-131 | the target's own cards keep their relative order |
| BoardSpec.DeleteColumnKeepsListOrder | src/NeonBoard.Domain/Boards/Board.cs:125-129 | migrated cards keep their list order |
| BoardSpec.RemoveColumnIds | src/NeonBoard.Domain/Boards/Board.cs:139-139 | removing the column drops exactly its id and keeps the ids unique |
| BoardSpec.DeleteColumnRenumbersColumns | src/NeonBoard.Domain/Boards/Board.cs:139-140 | after removal and resequencing, one column fewer, positions exactly 0..n-2, in the old relative order |
| BoardSpec.DeleteColumnKeepsConsistent | src/NeonBoard.Domain/Boards/Board.cs:113-144 | deleting a column with cards into a different existing column keeps all four invariants |
| BoardSpec.DeleteColumnCardsReferenceColumns | src/NeonBoard.Domain/Boards/Board.cs:123-143 | after migrating into a different existing column, every card names a column that survives the delete and no card's labels change |
| BoardSpec.DeleteEmptyColumnKeepsConsistent | src/NeonBoard.Domain/Boards/Board.cs:113-144 | deleting a column without cards keeps all four invariants |
| BoardSpec.DeleteColumnIntoItselfLeavesOrphans | src/NeonBoard.Domain/Boards/Board.cs:120-139 | naming the deleted column itself as target (which the checks accept) leaves cards whose column no longer exists |
| BoardSpec.AddCardKeepsConsistent | src/NeonBoard.Domain/Boards/Board.cs:150-169 | adding a card at its column's count keeps all four invariants, and a fresh id keeps card ids unique |
| BoardSpec.UpdateCardKeepsConsistent | src/NeonBoard.Domain/Boards/Board.cs:171-184 | replacing a card's content keeps all four invariants and the card ids |
| BoardSpec.MoveCardShape | src/NeonBoard.Domain/Boards/Board.cs:186-212 | moving changes the moved card's column to the target and otherwise only positions, and only in the source and target columns |
| BoardSpec.MovedOtherColumn | src/NeonBoard.Domain/Boards/Board.cs:194-202 | columns other than source and target keep their positions |
| BoardSpec.MoveCardKeepsConsistent | src/NeonBoard.Domain/Boards/Board.cs:186-212 | moving a card to an existing column keeps all four invariants |
| BoardSpec.MoveCardLanding | src/NeonBoard.Domain/Boards/Board.cs:194-202 | a target-column card ends before the moved card exactly when its position is below the requested one, or equal and it is earlier in the list |
| BoardSpec.MoveCardKeepsSiblingOrder | src/NeonBoard.Domain/Boards/Board.cs:194-202 | any two other cards of a column keep their relative order |
| BoardSpec.MoveCardOntoOccupiedPositionKeepsOccupantFirst | src/NeonBoard.Domain/Boards/Board.cs:196-198 | moving a later card onto an occupied position 0 puts it at position 1 |
| BoardSpec.DeleteCardRemovesExactlyThatCard | src/NeonBoard.Domain/Boards/Board.cs:214-224 | one card fewer; every other card keeps its id, column, content and labels in list order |
| BoardSpec.DeleteCardKeepsIdsUnique | src/NeonBoard.Domain/Boards/Board.cs:214-224 | card ids stay unique and the deleted id is gone |
| BoardSpec.DeleteCardKeepsConsistent | src/NeonBoard.Domain/Boards/Board.cs:214-224 | deleting a card keeps all four invariants |
| BoardSpec.DeleteCardOtherColumns | src/NeonBoard.Domain/Boards/Board.cs:214-224 | deleting a card resequences only its former column: every other column's card positions are exactly as before |
| BoardSpec.DeleteCardKeepsSiblingOrder | src/NeonBoard.Domain/Boards/Board.cs:219-220 | the remaining cards of its column keep their relative order |
| Ordering.Sort | src/NeonBoard.Domain/Boards/Board.cs:255-256 | `OrderBy` on indices: a permutation of the input, sorted by (key, index) when the indices are distinct |
| Ordering.InsertSorted | src/NeonBoard.Domain/Boards/Board.cs:255-256 | inserting one index into a sorted list keeps it sorted |
| Ordering.Renumbered | src/NeonBoard.Domain/Boards/Board.cs:258-260 | the k-th index of the order gets k; indices outside the order keep their key |
| Ordering.ResequencedSpec | src/NeonBoard.Domain/Boards/Board.cs:251-271 | the resequenced keys are distinct, below the member count, ordered as (key, index), and unchanged outside the members |
| Ordering.ResequencedDenseIsIdentity | src/NeonBoard.Domain/Boards/Board.cs:251-261 | resequencing keys that are already a permutation of 0..k-1 changes nothing |
| Cards.Card.CreateInternal | src/NeonBoard.Domain/Boards/Entities/Card.cs:26-40 | fails with ColumnIdEmpty exactly on the empty column id; otherwise a fresh card with the given column, content and position and no labels |
| Cards.Card.UpdateContent | src/NeonBoard.Domain/Boards/Entities/Card.cs:42-46 | only the content changes |
| Cards.Card.Move | src/NeonBoard.Domain/Boards/Entities/Card.cs:48-53 | only column and position change |
| Cards.Card.GetLabelIds | src/NeonBoard.Domain/Boards/Entities/Card.cs:75-78 | the assigned label ids in insertion order |
| Cards.Card.AddLabel | src/NeonBoard.Domain/Boards/Entities/Card.cs:55-63 | fails with LabelAlreadyAssigned exactly when the label is there; otherwise appends exactly that assignment; labels stay duplicate-free |
| Cards.Card.RemoveLabel | src/NeonBoard.Domain/Boards/Entities/Card.cs:65-73 | fails with LabelNotAssigned exactly when the label is absent; otherwise removes its assignment, the id is gone, the rest keep order |
| Cards.FirstIndexOf | src/NeonBoard.Domain/Boards/Entities/Card.cs:67-67 | the first assignment with the label id (`FirstOrDefault`) |
| Cards.WithoutLabelSpec | src/NeonBoard.Domain/Boards/Entities/Card.cs:65-73 | removal drops exactly one id and keeps the others in order; on a duplicate-free list the id is then absent |
| Cards.AddThenRemoveRestores | src/NeonBoard.Domain/Boards/Entities/Card.cs:55-73 | adding a label the card lacks and removing it restores the assignment list |
| Cards.AddThenRemoveLabel | src/NeonBoard.Domain/Boards/Entities/Card.cs:55-73 | on the objects: both calls succeed and the card's state is as before |
| Columns.ValidateName | src/NeonBoard.Domain/Boards/Entities/Column.cs:44-51 | passes exactly for a non-blank name of at most 50 code units; blank reported first |
| Columns.Column.CreateInternal | src/NeonBoard.Domain/Boards/Entities/Column.cs:20-31 | succeeds exactly for a valid name; a fresh column with that name and position |
| Columns.Column.UpdateName | src/NeonBoard.Domain/Boards/Entities/Column.cs:33-37 | validates before assigning: a rejected name changes nothing, an accepted one changes only the name |
| Columns.Column.UpdatePosition | src/NeonBoard.Domain/Boards/Entities/Column.cs:39-42 | only the position changes |
| Labels.ValidateName | src/NeonBoard.Domain/Boards/Entities/Label.cs:39-46 | passes exactly for a non-blank name of at most 50 code units; blank reported first |
| Labels.ValidateColorIsPaletteMembership | src/NeonBoard.Domain/Boards/Entities/Label.cs:48-55 | the colour check passes exactly for palette entries; a non-blank miss reports LabelColorInvalid |
| Labels.Label.Create | src/NeonBoard.Domain/Boards/Entities/Label.cs:17-28 | name checked before colour; a new label carries exactly the given name and colour |
| Labels.Label.Update | src/NeonBoard.Domain/Boards/Entities/Label.cs:30-37 | both checks before any assignment, so a failure changes nothing; success sets both fields |
| LabelColors.PaletteIsTenDistinct | src/NeonBoard.Domain/Boards/LabelColors.cs:16-19 | the palette has ten pairwise distinct entries |
| LabelColors.IsValidExactlyTheTen | src/NeonBoard.Domain/Boards/LabelColors.cs:21-22 | a colour is valid exactly when it is one of the ten lower-case names |
| LabelColors.IsValidIsCaseSensitive | src/NeonBoard.Domain/Boards/LabelColors.cs:21-22 | membership is ordinal: other casings, blanks and padded names are rejected |
| CardContents.ValidateTitle | src/NeonBoard.Domain/Boards/ValueObjects/CardContent.cs:35-42 | passes exactly for a non-blank title of at most 200 code units; blank reported first |
| CardContents.ValidateDescription | src/NeonBoard.Domain/Boards/ValueObjects/CardContent.cs:44-48 | a null description passes; a present one passes exactly when at most 5000 code units |
| CardContents.Create | src/NeonBoard.Domain/Boards/ValueObjects/CardContent.cs:18-28 | succeeds exactly when both checks pass, title first; the content holds the title and the description with null stored as "" |
| CardContents.CardContent.Update | src/NeonBoard.Domain/Boards/ValueObjects/CardContent.cs:30-33 | gives exactly what Create gives for the same arguments, whatever the receiver holds |
| CardContents.CreatedContentIsValid | src/NeonBoard.Domain/Boards/ValueObjects/CardContent.cs:18-28 | created content satisfies both limits, and a null description behaves as an empty one |
| CardContents.EqualityByComponents | src/NeonBoard.Domain/Boards/ValueObjects/CardContent.cs:50-54 | two contents are equal exactly when title and description are |
| Positions.Create | src/NeonBoard.Domain/Boards/ValueObjects/Position.cs:9-15 | succeeds exactly for a non-negative value, which it keeps; otherwise PositionNegative |
| Positions.EqualityByValue | src/NeonBoard.Domain/Boards/ValueObjects/Position.cs:17-20 | two positions are equal exactly when their values are |
| Positions.CreateInjective | src/NeonBoard.Domain/Boards/ValueObjects/Position.cs:9-15 | distinct non-negative inputs give distinct positions |
| Projects.ValidateName | src/NeonBoard.Domain/Projects/Project.cs:60-67 | passes exactly for a non-blank name of at most 100 code units; blank reported first |
| Projects.ValidateDescription | src/NeonBoard.Domain/Projects/Project.cs:69-73 | a null description passes; a present one exactly when at most 1000 code units |
| Projects.ValidateOwnerId | src/NeonBoard.Domain/Projects/Project.cs:75-79 | passes exactly when the owner is not the empty Guid |
| Projects.Project.Create | src/NeonBoard.Domain/Projects/Project.cs:25-48 | name, then description, then owner checked; a new project stores them (null description as ""), satisfies the project invariant, and holds one ProjectCreated event |
| Projects.Project.Update | src/NeonBoard.Domain/Projects/Project.cs:50-58 | both checks before any assignment, so a failure changes nothing; owner and events never change; the invariant is kept |
| Users.ValidateEmail | src/NeonBoard.Domain/Users/User.cs:43-53 | passes exactly for a non-blank e-mail of at most 254 code units containing '@'; checks reported in that order |
| Users.ValidateDisplayName | src/NeonBoard.Domain/Users/User.cs:55-62 | passes exactly for a non-blank name of at most 100 code units; blank reported first |
| Users.Create | src/NeonBoard.Domain/Users/User.cs:21-41 | e-mail checked before display name; a created user is valid, carries exactly the given e-mail, name and id, and holds one UserCreated event |

## Left out

- Timestamps: `CreatedAt` and `UpdatedAt`, set from `DateTime.UtcNow`, are not modelled, and neither are the timestamps inside domain events.
- Identifier generation: `Guid.NewGuid()` becomes a `newId` parameter. Its uniqueness in the collection it joins is a precondition.
- Base classes: `Entity`, `ValueObject` and `IAggregateRoot` are not part of this model. Their parts that matter are modelled directly:
  - the `Id` of each aggregate;
  - its list of domain events, as an `events` field or, for a user, a field of the value;
  - value equality, as datatype equality.
- Exceptions: a `DomainException` is a `Failure`/`Fail` value naming the broken rule. Message texts are not modelled.
- Null arguments: parameters declared `string` are assumed non-null, with one exception. `CardContent.Create` declares its description `string?`, and here it is `Option<string>`. `Project.Create` and `Project.Update` declare their description as plain `string`, yet the code handles null with `description ?? string.Empty`. So their description is `Option<string>` here too, and `None` is stored as "". `Board.AddCard` and `Board.UpdateCard` pass their description as present.
- Strings: a Dafny string is a sequence of Unicode scalar values. `string.Length` is modelled as the UTF-16 code-unit count of that sequence, and a lone surrogate cannot occur.
- Integer width: `Position.Value`, `targetPosition` and the migration counter `targetColumnCardCount` are 32-bit `int` in C#, and here they are unbounded `int`/`nat`. No wrap-around is reachable, because every count is bounded by a list's length. `Board.MoveCard` here also accepts target positions above `int.MaxValue`, which no C# caller can pass.
- Out of scope: the application handlers, the API endpoints, persistence, the event dispatcher and the UI.
- Boards.Board.DeleteColumn: keeps the invariants only when the cards are not moved into the deleted column itself. The code accepts that target, and `BoardSpec.DeleteColumnIntoItselfLeavesOrphans` shows that the cards then name a column that no longer exists.
- Boards.Board.ReorderColumns: keeps the invariants only when the id list has no repeats. The code does not reject repeats, and `BoardSpec.ReorderWithDuplicateIdIsNotDense` shows the result.
- Boards.Board.AddCard: the `ColumnIdEmpty` branch of `Card.CreateInternal` is kept as written. On a board it is reachable only when a column has the empty Guid as its id.
