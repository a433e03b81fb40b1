/** Board.cs: the aggregate root owning the columns and cards of one board. Each
    operation validates first, then updates its objects in place and records one
    domain event; the views `ColumnsData` and `CardsData` are proved to change exactly
    as the functions of BoardSpec say. */
module Boards {
  import opened Common
  import opened Ordering
  import opened BoardSpec
  import Text
  import Positions
  import Columns
  import Cards
  import CardContents

  const MaxNameLength: nat := 100

  /** The domain events a board raises (the timestamps are not modelled). */
  datatype BoardEvent =
    | BoardCreated(boardId: Guid, name: string, projectId: Guid)
    | BoardRenamed(boardId: Guid, newName: string)
    | ColumnAdded(boardId: Guid, columnId: Guid, name: string, position: int)
    | ColumnsReordered(boardId: Guid, newPositions: map<Guid, int>)
    | ColumnDeleted(boardId: Guid, columnId: Guid, movedCardsTo: Option<Guid>)
    | CardCreated(boardId: Guid, cardId: Guid, columnId: Guid, title: string, position: int)
    | CardUpdated(boardId: Guid, cardId: Guid, title: string, description: string)
    | CardMoved(boardId: Guid, cardId: Guid, sourceColumnId: Guid, targetColumnId: Guid, targetPosition: int)
    | CardDeleted(boardId: Guid, cardId: Guid, columnId: Guid)

  /** `Board.ValidateName`: non-blank, at most 100 UTF-16 code units. */
  function ValidateName(name: string): (r: Outcome)
    ensures r.Pass? <==> !Text.IsBlank(name) && Text.Utf16Length(name) <= MaxNameLength
    ensures Text.IsBlank(name) ==> r == Fail(BoardNameEmpty)
    ensures r.Fail? && !Text.IsBlank(name) ==> r == Fail(BoardNameTooLong(MaxNameLength))
  {
    if Text.IsBlank(name) then Fail(BoardNameEmpty)
    else if Text.Utf16Length(name) > MaxNameLength then Fail(BoardNameTooLong(MaxNameLength))
    else Pass
  }

  /** `Board.ValidateProjectId`: the project must not be the empty Guid. */
  function ValidateProjectId(projectId: Guid): (r: Outcome)
    ensures r.Pass? <==> projectId != EmptyGuid
    ensures r.Fail? ==> r == Fail(ProjectIdEmpty)
  {
    if projectId == EmptyGuid then Fail(ProjectIdEmpty) else Pass
  }

  /** The ids of a column list; ids never change, so this reads no object. */
  function ColumnIdsOf(cols: seq<Columns.Column>): (ids: seq<Guid>)
    ensures |ids| == |cols| && forall j | 0 <= j < |cols| :: ids[j] == cols[j].id
  {
    seq(|cols|, j requires 0 <= j < |cols| => cols[j].id)
  }

  function CardIdsOf(cs: seq<Cards.Card>): (ids: seq<Guid>)
    ensures |ids| == |cs| && forall i | 0 <= i < |cs| :: ids[i] == cs[i].id
  {
    seq(|cs|, i requires 0 <= i < |cs| => cs[i].id)
  }

  /** What a column list holds, as values. */
  function ColumnsData(cols: seq<Columns.Column>): (r: seq<Columns.ColumnData>)
    reads cols
    ensures |r| == |cols| && forall j | 0 <= j < |cols| :: r[j] == cols[j].Data()
  {
    seq(|cols|, j requires 0 <= j < |cols| reads cols => cols[j].Data())
  }

  /** What a card list holds, as values. */
  function CardsData(cs: seq<Cards.Card>): (r: seq<Cards.CardData>)
    reads cs
    ensures |r| == |cs| && forall i | 0 <= i < |cs| :: r[i] == cs[i].Data()
  {
    seq(|cs|, i requires 0 <= i < |cs| reads cs => cs[i].Data())
  }

  class Board {
    const id: Guid
    var name: string
    const projectId: Guid
    var columns: seq<Columns.Column>
    var cards: seq<Cards.Card>
    var events: seq<BoardEvent>

    /** Column ids and card ids are unique (they come from `Guid.NewGuid`); since ids
        never change, distinct entries are distinct objects. */
    ghost predicate Valid()
      reads this
    {
      Distinct(ColumnIdsOf(columns)) && Distinct(CardIdsOf(cards))
    }

    /** The four invariants of the board, on the current state. */
    ghost predicate Consistent()
      reads this, columns, cards
    {
      BoardSpec.Consistent(ColumnsData(columns), CardsData(cards))
    }

    /** The private constructor behind `Create`. */
    constructor (id: Guid, name: string, projectId: Guid)
      ensures this.id == id && this.name == name && this.projectId == projectId
      ensures columns == [] && cards == [] && events == []
    {
      this.id := id;
      this.name := name;
      this.projectId := projectId;
      columns := [];
      cards := [];
      events := [];
    }

    /** `FindColumn`: the first column with the id, or ColumnNotFound. */
    function FindColumn(columnId: Guid): (r: Result<nat>)
      reads this
      ensures r.Success? <==> columnId in ColumnIdsOf(columns)
      ensures r.Success? ==> r.value < |columns| && columns[r.value].id == columnId
                             && forall j | 0 <= j < r.value :: columns[j].id != columnId
      ensures r.Failure? ==> r.error == ColumnNotFound(columnId)
    {
      if columnId in ColumnIdsOf(columns) then Success(FirstIndex(ColumnIdsOf(columns), columnId))
      else Failure(ColumnNotFound(columnId))
    }

    /** `FindCard`: the first card with the id, or CardNotFound. */
    function FindCard(cardId: Guid): (r: Result<nat>)
      reads this
      ensures r.Success? <==> cardId in CardIdsOf(cards)
      ensures r.Success? ==> r.value < |cards| && cards[r.value].id == cardId
                             && forall i | 0 <= i < r.value :: cards[i].id != cardId
      ensures r.Failure? ==> r.error == CardNotFound(cardId)
    {
      if cardId in CardIdsOf(cards) then Success(FirstIndex(CardIdsOf(cards), cardId))
      else Failure(CardNotFound(cardId))
    }

    /** `Board.Create`: the name is checked first, then the project id; a new board
        has no columns or cards and one BoardCreated event. */
    static method Create(name: string, projectId: Guid, newId: Guid) returns (r: Result<Board>)
      ensures r.Success? <==> ValidateName(name).Pass? && projectId != EmptyGuid
      ensures r.Failure? ==>
                r.error == if ValidateName(name).Fail? then ValidateName(name).error else ProjectIdEmpty
      ensures r.Success? ==> fresh(r.value) && r.value.id == newId && r.value.name == name
                             && r.value.projectId == projectId
      ensures r.Success? ==> r.value.columns == [] && r.value.cards == []
                             && r.value.Valid() && r.value.Consistent()
      ensures r.Success? ==> r.value.events == [BoardCreated(newId, name, projectId)]
    {
      var v := ValidateName(name);
      if v.Fail? {
        return Failure(v.error);
      }
      var p := ValidateProjectId(projectId);
      if p.Fail? {
        return Failure(p.error);
      }
      var board := new Board(newId, name, projectId);
      board.events := [BoardCreated(newId, name, projectId)];
      return Success(board);
    }

    /** `Board.Rename`: validates, then renames and records BoardRenamed; a rejected
        name changes nothing. */
    method Rename(newName: string) returns (r: Outcome)
      modifies this
      ensures r == ValidateName(newName)
      ensures name == if r.Pass? then newName else old(name)
      ensures events == if r.Pass? then old(events) + [BoardRenamed(id, newName)] else old(events)
      ensures columns == old(columns) && cards == old(cards)
    {
      r := ValidateName(newName);
      if r.Fail? {
        return;
      }
      name := newName;
      events := events + [BoardRenamed(id, newName)];
    }

    /** `Board.AddColumn`: a valid name gives a new column at position n (the old count)
        and a ColumnAdded event; an invalid name changes nothing. */
    method AddColumn(columnName: string, newId: Guid) returns (r: Result<Guid>)
      requires Valid() && newId !in ColumnIdsOf(columns)
      modifies this
      ensures Valid()
      ensures r.Success? <==> Columns.ValidateName(columnName).Pass?
      ensures r.Failure? ==> Fail(r.error) == Columns.ValidateName(columnName)
                             && columns == old(columns) && events == old(events)
      ensures r.Success? ==> r.value == newId && |columns| == |old(columns)| + 1
                             && fresh(columns[|columns| - 1])
      ensures r.Success? ==>
                ColumnsData(columns) == old(ColumnsData(columns)) + [Columns.ColumnData(newId, columnName, |old(columns)|)]
      ensures r.Success? ==>
                events == old(events) + [ColumnAdded(id, newId, columnName, |old(columns)|)]
      ensures name == old(name) && cards == old(cards) && CardsData(cards) == old(CardsData(cards))
      ensures old(Consistent()) ==> Consistent()
    {
      ghost var cols0 := ColumnsData(columns);
      ghost var cs0 := CardsData(cards);
      var count := |columns|;
      var position := Positions.Create(count);
      var created := Columns.Column.CreateInternal(columnName, position.value, newId);
      if created.Failure? {
        return Failure(created.error);
      }
      columns := columns + [created.value];
      assert ColumnIdsOf(columns) == old(ColumnIdsOf(columns)) + [newId];
      forall j | 0 <= j < |cols0| ensures columns[j].Data() == cols0[j] {
        assert columns[j] == old(columns)[j];
      }
      assert ColumnsData(columns) == cols0 + [Columns.ColumnData(newId, columnName, |cols0|)];
      Record(ColumnAdded(id, newId, columnName, count));
      assert CardsData(cards) == cs0;
      if old(Consistent()) {
        AddColumnKeepsConsistent(cols0, cs0, newId, columnName);
      }
      return Success(newId);
    }

    /** `Board.RenameColumn`: finds the column, then lets it validate and rename itself.
        No event is recorded. */
    method RenameColumn(columnId: Guid, newName: string) returns (r: Outcome)
      requires Valid()
      modifies columns
      ensures r == if FindColumn(columnId).Failure? then Fail(ColumnNotFound(columnId))
                   else Columns.ValidateName(newName)
      ensures r.Pass? ==> var k := FindColumn(columnId).value;
                ColumnsData(columns) == old(ColumnsData(columns))[k := old(ColumnsData(columns))[k].(name := newName)]
      ensures r.Fail? ==> ColumnsData(columns) == old(ColumnsData(columns))
      ensures CardsData(cards) == old(CardsData(cards))
      ensures old(Consistent()) ==> Consistent()
    {
      var f := FindColumn(columnId);
      if f.Failure? {
        return Fail(f.error);
      }
      var k := f.value;
      ghost var before := ColumnsData(columns);
      r := columns[k].UpdateName(newName);
      forall j | 0 <= j < |columns| && j != k ensures columns[j].Data() == before[j] {
        assert columns[j].id != columns[k].id;
      }
      assert ColumnKeys(ColumnsData(columns)) == ColumnKeys(before);
      assert ColumnIds(ColumnsData(columns)) == ColumnIds(before);
    }

    /** The `foreach` check of `ReorderColumns`: every listed id names a column; the
        first id that does not is reported. Nothing changes. */
    method CheckAllPresent(ids: seq<Guid>) returns (r: Outcome)
      ensures r.Pass? <==> forall x | x in ids :: x in ColumnIdsOf(columns)
      ensures r.Fail? ==> exists k | 0 <= k < |ids| ::
                r.error == ColumnNotFound(ids[k]) && ids[k] !in ColumnIdsOf(columns)
                && forall j | 0 <= j < k :: ids[j] in ColumnIdsOf(columns)
    {
      var k := 0;
      while k < |ids|
        invariant k <= |ids|
        invariant forall j | 0 <= j < k :: ids[j] in ColumnIdsOf(columns)
      {
        var f := FindColumn(ids[k]);
        if f.Failure? {
          return Fail(f.error);
        }
        k := k + 1;
      }
      return Pass;
    }

    /** `Board.ReorderColumns`: after the count check and the presence check, the
        column named at index i gets position i (for a repeated id, the last index
        naming it) and the dictionary of new positions is recorded. */
    method ReorderColumns(ids: seq<Guid>) returns (r: Outcome)
      requires Valid()
      modifies this, columns
      ensures Valid()
      ensures |ids| != |old(columns)| ==> r == Fail(ColumnCountMismatch)
      ensures |ids| == |old(columns)| ==> (r.Pass? <==> forall x | x in ids :: x in ColumnIdsOf(columns))
      ensures r.Fail? && |ids| == |old(columns)| ==> exists k | 0 <= k < |ids| ::
                r.error == ColumnNotFound(ids[k]) && ids[k] !in ColumnIdsOf(columns)
                && forall j | 0 <= j < k :: ids[j] in ColumnIdsOf(columns)
      ensures r.Fail? ==> ColumnsData(columns) == old(ColumnsData(columns)) && events == old(events)
      ensures r.Pass? ==> ColumnsData(columns) == Reordered(old(ColumnsData(columns)), ids)
      ensures r.Pass? ==> events == old(events) + [ColumnsReordered(id, NewPositions(ids))]
      ensures columns == old(columns) && cards == old(cards) && name == old(name)
      ensures CardsData(cards) == old(CardsData(cards))
      ensures r.Pass? && old(Consistent()) && Distinct(ids) ==> Consistent()
    {
      ghost var cols0 := ColumnsData(columns);
      ghost var cs0 := CardsData(cards);
      if |ids| != |columns| {
        return Fail(ColumnCountMismatch);
      }
      r := CheckAllPresent(ids);
      if r.Fail? {
        return;
      }
      var newPositions := AssignPositions(ids);
      Record(ColumnsReordered(id, newPositions));
      if old(Consistent()) && Distinct(ids) {
        assert ColumnIdsOf(columns) == ColumnIds(cols0);
        ReorderKeepsConsistent(cols0, cs0, ids);
      }
    }

    /** The assignment loop of `ReorderColumns`. */
    method AssignPositions(ids: seq<Guid>) returns (newPositions: map<Guid, int>)
      requires Valid() && forall x | x in ids :: x in ColumnIdsOf(columns)
      modifies columns
      ensures newPositions == NewPositions(ids)
      ensures ColumnsData(columns) == Reordered(old(ColumnsData(columns)), ids)
      ensures CardsData(cards) == old(CardsData(cards))
    {
      ghost var cols0 := ColumnsData(columns);
      ghost var cs0 := CardsData(cards);
      assert ColumnIdsOf(columns) == ColumnIds(cols0);
      newPositions := map[];
      assert Reordered(cols0, ids[..0]) == cols0;
      var i := 0;
      while i < |ids|
        invariant i <= |ids| && Valid()
        invariant CardsData(cards) == cs0
        invariant ColumnsData(columns) == Reordered(cols0, ids[..i])
        invariant newPositions == NewPositions(ids[..i])
      {
        PlaceColumn(cols0, ids, i);
        NewPositionsStep(ids, i);
        newPositions := newPositions[ids[i] := i];
        i := i + 1;
      }
      assert ids[..|ids|] == ids;
    }

    /** One pass of the assignment loop: the column named `ids[i]` gets position i. */
    method PlaceColumn(ghost cols0: seq<Columns.ColumnData>, ids: seq<Guid>, i: nat)
      requires Valid() && i < |ids| && ids[i] in ColumnIdsOf(columns) && ColumnIdsOf(columns) == ColumnIds(cols0)
      requires ColumnsData(columns) == Reordered(cols0, ids[..i])
      modifies columns
      ensures ColumnsData(columns) == Reordered(cols0, ids[..i + 1])
      ensures CardsData(cards) == old(CardsData(cards))
    {
      var k := FindColumn(ids[i]).value;
      ReorderedStep(cols0, ids, i);
      SetColumnPosition(k, i);
    }

    /** `Board.DeleteColumn`: a column with cards needs an existing target; its cards
        are appended to the target in list order and the target is resequenced. The
        column is then removed and the remaining columns resequenced. */
    method DeleteColumn(columnId: Guid, moveTo: Option<Guid>) returns (r: Outcome)
      requires Valid()
      modifies this, columns, cards
      ensures Valid()
      ensures var hasCards := Members(old(CardsData(cards)), columnId) != [];
        r == if columnId !in old(ColumnIdsOf(columns)) then Fail(ColumnNotFound(columnId))
             else if hasCards && moveTo.None? then Fail(ColumnHasCards)
             else if hasCards && moveTo.value !in old(ColumnIdsOf(columns)) then Fail(ColumnNotFound(moveTo.value))
             else Pass
      ensures r.Fail? ==> ColumnsData(columns) == old(ColumnsData(columns)) && CardsData(cards) == old(CardsData(cards))
                          && columns == old(columns) && events == old(events)
      ensures r.Pass? ==> ColumnsData(columns) == DeleteColumnColumns(old(ColumnsData(columns)), columnId)
      ensures r.Pass? ==> CardsData(cards) == if Members(old(CardsData(cards)), columnId) == [] then old(CardsData(cards))
                                         else DeleteColumnCards(old(CardsData(cards)), columnId, moveTo.value)
      ensures r.Pass? ==> events == old(events) + [ColumnDeleted(id, columnId, moveTo)]
      ensures cards == old(cards) && name == old(name)
      ensures r.Pass? && old(Consistent()) && !(Members(old(CardsData(cards)), columnId) != [] && moveTo == Some(columnId))
              ==> Consistent()
    {
      var k;
      r, k := CheckDeleteColumn(columnId, moveTo);
      if r.Fail? {
        return;
      }
      ghost var cs0 := CardsData(cards);
      ghost var cols0 := ColumnsData(columns);
      assert ColumnIdsOf(columns) == ColumnIds(cols0);
      ApplyDeleteColumn(columnId, moveTo, k, Members(CardsData(cards), columnId) != []);
      DeleteColumnConsistency(cols0, cs0, columnId, moveTo);
    }

    /** The checks of `DeleteColumn`, in the order the source makes them: the column
        exists; if it holds cards, a target was given and exists. Nothing changes. */
    method CheckDeleteColumn(columnId: Guid, moveTo: Option<Guid>) returns (r: Outcome, k: nat)
      ensures var hasCards := Members(CardsData(cards), columnId) != [];
        r == if columnId !in ColumnIdsOf(columns) then Fail(ColumnNotFound(columnId))
             else if hasCards && moveTo.None? then Fail(ColumnHasCards)
             else if hasCards && moveTo.value !in ColumnIdsOf(columns) then Fail(ColumnNotFound(moveTo.value))
             else Pass
      ensures r.Pass? ==> k == FirstIndex(ColumnIdsOf(columns), columnId)
    {
      var f := FindColumn(columnId);
      if f.Failure? {
        return Fail(f.error), 0;
      }
      k := f.value;
      var ms := Members(CardsData(cards), columnId);
      if |ms| > 0 {
        if moveTo.None? {
          return Fail(ColumnHasCards), k;
        }
        var g := FindColumn(moveTo.value);
        if g.Failure? {
          return Fail(g.error), k;
        }
      } else {
        assert ms == [];
      }
      return Pass, k;
    }

    /** The changes `DeleteColumn` makes once its checks passed. */
    method ApplyDeleteColumn(columnId: Guid, moveTo: Option<Guid>, k: nat, hasCards: bool)
      requires Valid() && columnId in ColumnIds(ColumnsData(columns)) && k == FirstIndex(ColumnIds(ColumnsData(columns)), columnId)
      requires hasCards ==> moveTo.Some?
      modifies this, columns, cards
      ensures Valid()
      ensures ColumnsData(columns) == DeleteColumnColumns(old(ColumnsData(columns)), columnId)
      ensures CardsData(cards) == if hasCards then DeleteColumnCards(old(CardsData(cards)), columnId, moveTo.value)
                             else old(CardsData(cards))
      ensures events == old(events) + [ColumnDeleted(id, columnId, moveTo)]
      ensures cards == old(cards) && name == old(name)
    {
      if hasCards {
        MoveAllCards(columnId, moveTo.value);
      }
      RemoveColumn(k);
      Record(ColumnDeleted(id, columnId, moveTo));
    }

    /** `Board.AddCard`: the column must exist and the content be valid; the new card
        goes to the end of that column (its position is the column's card count) and
        CardCreated is recorded. A failure changes nothing. */
    method AddCard(columnId: Guid, title: string, description: string, newId: Guid) returns (r: Result<Guid>)
      requires Valid() && newId !in CardIdsOf(cards)
      modifies this
      ensures Valid()
      ensures var content := CardContents.Create(title, Some(description));
        r.Success? <==> columnId in ColumnIdsOf(columns) && content.Success? && columnId != EmptyGuid
      ensures var content := CardContents.Create(title, Some(description));
        r.Failure? ==> r.error == if columnId !in ColumnIdsOf(columns) then ColumnNotFound(columnId)
                                  else if content.Failure? then content.error
                                  else ColumnIdEmpty
      ensures r.Failure? ==> cards == old(cards) && CardsData(cards) == old(CardsData(cards)) && events == old(events)
      ensures r.Success? ==> r.value == newId && |cards| == |old(cards)| + 1 && fresh(cards[|cards| - 1])
      ensures r.Success? ==>
                CardsData(cards) == AddCardSpec(old(CardsData(cards)), newId, columnId,
                                                CardContents.Create(title, Some(description)).value)
      ensures r.Success? ==>
                events == old(events) + [CardCreated(id, newId, columnId, title, |Members(old(CardsData(cards)), columnId)|)]
      ensures columns == old(columns) && name == old(name) && ColumnsData(columns) == old(ColumnsData(columns))
      ensures old(Consistent()) ==> Consistent()
    {
      var f := FindColumn(columnId);
      if f.Failure? {
        return Failure(f.error);
      }
      var content := CardContents.Create(title, Some(description));
      if content.Failure? {
        return Failure(content.error);
      }
      ghost var cols0 := ColumnsData(columns);
      ghost var cs0 := CardsData(cards);
      var count := |Members(CardsData(cards), columnId)|;
      var position := Positions.Create(count);
      var created := Cards.Card.CreateInternal(columnId, content.value, position.value, newId);
      if created.Failure? {
        return Failure(created.error);
      }
      AppendCard(created.value);
      Record(CardCreated(id, newId, columnId, title, count));
      if old(Consistent()) {
        assert ColumnIdsOf(columns) == ColumnIds(cols0);
        AddCardKeepsConsistent(cols0, cs0, newId, columnId, content.value);
      }
      return Success(newId);
    }

    /** `_cards.Add(card)`: the card goes to the end of the list. */
    method AppendCard(card: Cards.Card)
      requires Valid() && card.id !in CardIdsOf(cards)
      modifies this
      ensures Valid()
      ensures cards == old(cards) + [card]
      ensures CardsData(cards) == old(CardsData(cards)) + [card.Data()]
      ensures columns == old(columns) && name == old(name) && events == old(events)
      ensures ColumnsData(columns) == old(ColumnsData(columns))
    {
      ghost var ids := CardIdsOf(cards);
      cards := cards + [card];
      assert CardIdsOf(cards) == ids + [card.id];
    }

    /** `Board.UpdateCard`: the card must exist and the new content be valid; the card's
        content is replaced and CardUpdated is recorded. A failure changes nothing. */
    method UpdateCard(cardId: Guid, title: string, description: string) returns (r: Outcome)
      requires Valid()
      modifies this, cards
      ensures Valid()
      ensures cards == old(cards) && columns == old(columns) && name == old(name)
      ensures ColumnsData(columns) == old(ColumnsData(columns))
      ensures var content := CardContents.Create(title, Some(description));
        r == if cardId !in CardIdsOf(cards) then Fail(CardNotFound(cardId))
             else if content.Failure? then Fail(content.error)
             else Pass
      ensures r.Pass? ==>
                CardsData(cards) == UpdateCardSpec(old(CardsData(cards)), FirstIndex(CardIdsOf(cards), cardId),
                                                   CardContents.Create(title, Some(description)).value)
      ensures r.Pass? ==> events == old(events) + [CardUpdated(id, cardId, title, description)]
      ensures r.Fail? ==> CardsData(cards) == old(CardsData(cards)) && events == old(events)
      ensures old(Consistent()) ==> Consistent()
    {
      var f := FindCard(cardId);
      if f.Failure? {
        return Fail(f.error);
      }
      var content := CardContents.Create(title, Some(description));
      if content.Failure? {
        return Fail(content.error);
      }
      ghost var cols0 := ColumnsData(columns);
      ghost var cs0 := CardsData(cards);
      SetCardContent(f.value, content.value);
      Record(CardUpdated(id, cardId, title, description));
      if old(Consistent()) {
        UpdateCardKeepsConsistent(cols0, cs0, f.value, content.value);
      }
      return Pass;
    }

    /** Replacing the content of the card at index `k` changes that card's view entry
        and no other. */
    method SetCardContent(k: nat, content: CardContents.CardContent)
      requires Valid() && k < |cards|
      modifies cards[k]
      ensures CardsData(cards) == old(CardsData(cards))[k := old(CardsData(cards))[k].(content := content)]
      ensures ColumnsData(columns) == old(ColumnsData(columns))
    {
      cards[k].UpdateContent(content);
      forall j | 0 <= j < |cards| && j != k ensures cards[j].Data() == old(cards[j].Data()) {
        assert cards[j].id != cards[k].id;
      }
    }

    /** `Board.MoveCard`: the card, then the target column, then the position are
        checked; the card is placed at the requested position and the source column,
        and then the target column if it differs, are resequenced. CardMoved records
        the requested position. A failure changes nothing. */
    method MoveCard(cardId: Guid, targetColumnId: Guid, targetPosition: int) returns (r: Outcome)
      requires Valid()
      modifies this, cards
      ensures Valid()
      ensures cards == old(cards) && columns == old(columns) && name == old(name)
      ensures ColumnsData(columns) == old(ColumnsData(columns))
      ensures r == if cardId !in CardIdsOf(cards) then Fail(CardNotFound(cardId))
                   else if targetColumnId !in ColumnIdsOf(columns) then Fail(ColumnNotFound(targetColumnId))
                   else if targetPosition < 0 then Fail(NegativeTargetPosition)
                   else Pass
      ensures r.Pass? ==> var k := FirstIndex(CardIdsOf(cards), cardId);
                CardsData(cards) == MoveCardSpec(old(CardsData(cards)), k, targetColumnId, targetPosition)
                && events == old(events) + [CardMoved(id, cardId, old(CardsData(cards))[k].columnId,
                                                      targetColumnId, targetPosition)]
      ensures r.Fail? ==> CardsData(cards) == old(CardsData(cards)) && events == old(events)
      ensures old(Consistent()) ==> Consistent()
    {
      var f := FindCard(cardId);
      if f.Failure? {
        return Fail(f.error);
      }
      var g := FindColumn(targetColumnId);
      if g.Failure? {
        return Fail(g.error);
      }
      if targetPosition < 0 {
        return Fail(NegativeTargetPosition);
      }
      var k := f.value;
      ghost var cols0 := ColumnsData(columns);
      ghost var cs0 := CardsData(cards);
      var sourceColumnId := cards[k].columnId;
      PlaceCard(k, targetColumnId, targetPosition);
      Record(CardMoved(id, cardId, sourceColumnId, targetColumnId, targetPosition));
      if old(Consistent()) {
        assert ColumnIdsOf(columns) == ColumnIds(cols0);
        MoveCardKeepsConsistent(cols0, cs0, k, targetColumnId, targetPosition);
      }
      return Pass;
    }

    /** The changes `MoveCard` makes once its checks passed. */
    method PlaceCard(k: nat, t: Guid, p: nat)
      requires Valid() && k < |cards|
      modifies cards
      ensures CardsData(cards) == MoveCardSpec(old(CardsData(cards)), k, t, p)
      ensures ColumnsData(columns) == old(ColumnsData(columns))
    {
      var sourceColumnId := cards[k].columnId;
      MoveOneCard(k, t, p);
      ResequenceCardsInColumn(sourceColumnId);
      if sourceColumnId != t {
        ResequenceCardsInColumn(t);
      }
    }

    /** `Board.DeleteCard`: the card must exist; it is removed, its former column is
        resequenced and CardDeleted is recorded. A failure changes nothing. */
    method DeleteCard(cardId: Guid) returns (r: Outcome)
      requires Valid()
      modifies this, cards
      ensures Valid()
      ensures r == if cardId in old(CardIdsOf(cards)) then Pass else Fail(CardNotFound(cardId))
      ensures r.Pass? ==> var k := FirstIndex(old(CardIdsOf(cards)), cardId);
                CardsData(cards) == DeleteCardSpec(old(CardsData(cards)), k)
                && CardIdsOf(cards) == RemoveAt(old(CardIdsOf(cards)), k)
                && events == old(events) + [CardDeleted(id, cardId, old(CardsData(cards))[k].columnId)]
      ensures r.Fail? ==> cards == old(cards) && CardsData(cards) == old(CardsData(cards)) && events == old(events)
      ensures columns == old(columns) && name == old(name)
      ensures ColumnsData(columns) == old(ColumnsData(columns))
      ensures old(Consistent()) ==> Consistent()
    {
      var f := FindCard(cardId);
      if f.Failure? {
        return Fail(f.error);
      }
      var k := f.value;
      ghost var cols0 := ColumnsData(columns);
      ghost var cs0 := CardsData(cards);
      var columnId := cards[k].columnId;
      ApplyDeleteCard(k);
      Record(CardDeleted(id, cardId, columnId));
      if old(Consistent()) {
        DeleteCardKeepsConsistent(cols0, cs0, k);
      }
      return Pass;
    }

    /** The changes `DeleteCard` makes once the card was found. */
    method ApplyDeleteCard(k: nat)
      requires Valid() && k < |cards|
      modifies this, cards
      ensures Valid()
      ensures CardsData(cards) == DeleteCardSpec(old(CardsData(cards)), k)
      ensures CardIdsOf(cards) == RemoveAt(old(CardIdsOf(cards)), k)
      ensures columns == old(columns) && name == old(name) && events == old(events)
      ensures ColumnsData(columns) == old(ColumnsData(columns))
    {
      var columnId := cards[k].columnId;
      RemoveCardAt(k);
      ResequenceCardsInColumn(columnId);
    }

    /** `_cards.Remove(card)` for the card at index `k`. */
    method RemoveCardAt(k: nat)
      requires Valid() && k < |cards|
      modifies this
      ensures Valid()
      ensures cards == RemoveAt(old(cards), k)
      ensures CardsData(cards) == RemoveAt(old(CardsData(cards)), k)
      ensures CardIdsOf(cards) == RemoveAt(old(CardIdsOf(cards)), k)
      ensures columns == old(columns) && name == old(name) && events == old(events)
      ensures ColumnsData(columns) == old(ColumnsData(columns))
    {
      ghost var ids := CardIdsOf(cards);
      cards := RemoveAt(cards, k);
      assert CardIdsOf(cards) == RemoveAt(ids, k);
      RemoveAtDistinct(ids, k);
    }

    /** Appends one domain event; nothing else changes. */
    method Record(e: BoardEvent)
      modifies this
      ensures events == old(events) + [e]
      ensures columns == old(columns) && cards == old(cards) && name == old(name)
      ensures ColumnsData(columns) == old(ColumnsData(columns)) && CardsData(cards) == old(CardsData(cards))
    {
      events := events + [e];
    }

    /** Which of the consistency lemmas applies to a delete. */
    static lemma DeleteColumnConsistency(cols0: seq<Columns.ColumnData>, cs0: seq<Cards.CardData>, c: Guid, moveTo: Option<Guid>)
      requires UniqueColumnIds(cols0) && c in ColumnIds(cols0)
      requires Members(cs0, c) != [] ==> moveTo.Some? && moveTo.value in ColumnIds(cols0)
      ensures BoardSpec.Consistent(cols0, cs0) && !(Members(cs0, c) != [] && moveTo == Some(c)) ==>
                BoardSpec.Consistent(DeleteColumnColumns(cols0, c),
                                     if Members(cs0, c) == [] then cs0 else DeleteColumnCards(cs0, c, moveTo.value))
    {
      if BoardSpec.Consistent(cols0, cs0) && !(Members(cs0, c) != [] && moveTo == Some(c)) {
        if Members(cs0, c) == [] {
          DeleteEmptyColumnKeepsConsistent(cols0, cs0, c);
        } else {
          DeleteColumnKeepsConsistent(cols0, cs0, c, moveTo.value);
        }
      }
    }

    /** The card part of `DeleteColumn`: migrate, then resequence the target. */
    method MoveAllCards(c: Guid, t: Guid)
      requires Valid()
      modifies cards
      ensures CardsData(cards) == DeleteColumnCards(old(CardsData(cards)), c, t)
      ensures ColumnsData(columns) == old(ColumnsData(columns))
    {
      MigrateCardsInto(c, t);
      ResequenceCardsInColumn(t);
    }

    /** The column part of `DeleteColumn`: remove, then resequence the rest. */
    method RemoveColumn(k: nat)
      requires Valid() && k < |columns|
      modifies this, columns
      ensures Valid()
      ensures ColumnsData(columns) == BoardSpec.ResequenceColumns(RemoveAt(old(ColumnsData(columns)), k))
      ensures ColumnIdsOf(columns) == RemoveAt(old(ColumnIdsOf(columns)), k)
      ensures cards == old(cards) && CardsData(cards) == old(CardsData(cards))
      ensures name == old(name) && events == old(events)
    {
      RemoveColumnAt(k);
      ResequenceColumns();
    }

    /** The `foreach` of `DeleteColumn`: the cards of `c`, in list order, go to `t` at
        positions k, k+1, ... where k is the number of cards `t` had. */
    method MigrateCardsInto(c: Guid, t: Guid)
      requires Valid()
      modifies cards
      ensures CardsData(cards) == MigrateCards(old(CardsData(cards)), c, t)
      ensures ColumnsData(columns) == old(ColumnsData(columns))
    {
      ghost var cs := CardsData(cards);
      var ms := Members(CardsData(cards), c);
      var count := |Members(CardsData(cards), t)|;
      MigrateListed(cs, ms, t, count);
    }

    /** The migration loop over the listed card indices `ms`. */
    method MigrateListed(ghost cs: seq<Cards.CardData>, ms: seq<nat>, t: Guid, base: nat)
      requires Valid() && CardsData(cards) == cs && forall j | 0 <= j < |ms| :: ms[j] < |cs|
      modifies cards
      ensures CardsData(cards) == Migrated(cs, ms, t, base, |ms|)
      ensures ColumnsData(columns) == old(ColumnsData(columns))
    {
      ghost var cols := ColumnsData(columns);
      var count := base;
      var i := 0;
      while i < |ms|
        invariant i <= |ms| && Valid() && count == base + i && ColumnsData(columns) == cols
        invariant CardsData(cards) == Migrated(cs, ms, t, base, i)
      {
        MigrateOne(cs, ms, t, base, i, count);
        count := count + 1;
        i := i + 1;
      }
    }

    /** One pass of the migration loop. */
    method MigrateOne(ghost cs: seq<Cards.CardData>, ms: seq<nat>, t: Guid, ghost base: nat, i: nat, count: nat)
      requires Valid() && |cs| == |cards| && i < |ms| && ms[i] < |cs|
      requires count == base + i
      requires CardsData(cards) == Migrated(cs, ms, t, base, i)
      modifies cards
      ensures CardsData(cards) == Migrated(cs, ms, t, base, i + 1)
      ensures ColumnsData(columns) == old(ColumnsData(columns))
    {
      MigratedStep(cs, ms, t, base, i);
      MoveOneCard(ms[i], t, count);
    }

    /** `_columns.Remove(column)` for the column at index `k`. */
    method RemoveColumnAt(k: nat)
      requires Valid() && k < |columns|
      modifies this
      ensures Valid()
      ensures columns == RemoveAt(old(columns), k)
      ensures ColumnsData(columns) == RemoveAt(old(ColumnsData(columns)), k)
      ensures ColumnIdsOf(columns) == RemoveAt(old(ColumnIdsOf(columns)), k)
      ensures cards == old(cards) && name == old(name) && events == old(events)
    {
      ghost var ids := ColumnIdsOf(columns);
      columns := RemoveAt(columns, k);
      assert ColumnIdsOf(columns) == RemoveAt(ids, k);
      RemoveAtDistinct(ids, k);
    }

    /** `ResequenceCardsInColumn`: the cards of column `c`, stably ordered by position,
        are renumbered 0, 1, 2, ... */
    method ResequenceCardsInColumn(c: Guid)
      requires Valid()
      modifies cards
      ensures CardsData(cards) == ResequenceCards(old(CardsData(cards)), c)
      ensures ColumnsData(columns) == old(ColumnsData(columns))
    {
      ghost var cs := CardsData(cards);
      var order := CardOrder(CardsData(cards), c);
      RenumberCards(cs, c, order);
      CardsRenumberedSpec(cs, c, order, |order|);
      assert order[..|order|] == order;
    }

    /** The renumbering loop: the i-th card of `order` is moved to `c` at position i. */
    method RenumberCards(ghost cs: seq<Cards.CardData>, c: Guid, order: seq<nat>)
      requires Valid() && CardsData(cards) == cs && forall k | 0 <= k < |order| :: order[k] < |cs|
      modifies cards
      ensures CardsData(cards) == CardsRenumbered(cs, c, order, |order|)
      ensures ColumnsData(columns) == old(ColumnsData(columns))
    {
      ghost var cols := ColumnsData(columns);
      var i := 0;
      while i < |order|
        invariant i <= |order| && Valid() && ColumnsData(columns) == cols
        invariant CardsData(cards) == CardsRenumbered(cs, c, order, i)
      {
        MoveOneCard(order[i], c, i);
        i := i + 1;
      }
    }

    /** Moving the card at index `k` to column `c` and position `p` changes that card's
        view entry and no other. */
    method MoveOneCard(k: nat, c: Guid, p: nat)
      requires Valid() && k < |cards|
      modifies cards[k]
      ensures CardsData(cards) == old(CardsData(cards))[k := old(CardsData(cards))[k].(columnId := c, position := p)]
      ensures ColumnsData(columns) == old(ColumnsData(columns))
    {
      var position := Positions.Create(p);
      cards[k].Move(c, position.value);
      forall j | 0 <= j < |cards| && j != k ensures cards[j].Data() == old(cards[j].Data()) {
        assert cards[j].id != cards[k].id;
      }
    }

    /** `ResequenceColumns`: the columns, stably ordered by position, are renumbered
        0, 1, 2, ... */
    method ResequenceColumns()
      requires Valid()
      modifies columns
      ensures ColumnsData(columns) == BoardSpec.ResequenceColumns(old(ColumnsData(columns)))
      ensures CardsData(cards) == old(CardsData(cards))
    {
      ghost var cols := ColumnsData(columns);
      var order := ColumnOrder(ColumnsData(columns));
      RenumberColumns(cols, order);
      ColumnsRenumberedSpec(cols, order, |order|);
      assert order[..|order|] == order;
    }

    /** The column renumbering loop: the i-th column of `order` gets position i. */
    method RenumberColumns(ghost cols: seq<Columns.ColumnData>, order: seq<nat>)
      requires Valid() && ColumnsData(columns) == cols && forall k | 0 <= k < |order| :: order[k] < |cols|
      modifies columns
      ensures ColumnsData(columns) == ColumnsRenumbered(cols, order, |order|)
      ensures CardsData(cards) == old(CardsData(cards))
    {
      ghost var cs := CardsData(cards);
      var i := 0;
      while i < |order|
        invariant i <= |order| && Valid() && CardsData(cards) == cs
        invariant ColumnsData(columns) == ColumnsRenumbered(cols, order, i)
      {
        SetColumnPosition(order[i], i);
        i := i + 1;
      }
    }

    /** Giving the column at index `k` position `p` changes that column's view entry and
        no other. */
    method SetColumnPosition(k: nat, p: nat)
      requires Valid() && k < |columns|
      modifies columns[k]
      ensures ColumnsData(columns) == old(ColumnsData(columns))[k := old(ColumnsData(columns))[k].(position := p)]
      ensures CardsData(cards) == old(CardsData(cards))
    {
      var position := Positions.Create(p);
      columns[k].UpdatePosition(position.value);
      forall j | 0 <= j < |columns| && j != k ensures columns[j].Data() == old(columns[j].Data()) {
        assert columns[j].id != columns[k].id;
      }
    }
  }
}
