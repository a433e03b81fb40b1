/** Card.cs: a card with its content, its place (column and position) and the
    labels assigned to it. */
module Cards {
  import opened Common
  import opened Positions
  import opened CardContents
  import Ordering

  /** CardLabel.cs: the (card, label) assignment record. */
  datatype CardLabel = CardLabel(cardId: Guid, labelId: Guid)

  /** The observable state of a card. */
  datatype CardData = CardData(id: Guid, columnId: Guid, content: CardContent, position: nat,
                               cardLabels: seq<CardLabel>)

  /** The label ids of an assignment list, in insertion order. */
  function LabelIdsOf(ls: seq<CardLabel>): (ids: seq<Guid>)
    ensures |ids| == |ls|
    ensures forall k | 0 <= k < |ls| :: ids[k] == ls[k].labelId
  {
    seq(|ls|, k requires 0 <= k < |ls| => ls[k].labelId)
  }

  /** The index `FirstOrDefault` finds: the first assignment of `labelId`. */
  function FirstIndexOf(ls: seq<CardLabel>, labelId: Guid): (k: nat)
    requires labelId in LabelIdsOf(ls)
    ensures k < |ls| && ls[k].labelId == labelId
    ensures forall j | 0 <= j < k :: ls[j].labelId != labelId
  {
    if ls[0].labelId == labelId then 0
    else
      assert LabelIdsOf(ls) == [ls[0].labelId] + LabelIdsOf(ls[1..]);
      1 + FirstIndexOf(ls[1..], labelId)
  }

  /** The list after `_cardLabels.Remove` of the first assignment of `labelId`. */
  function WithoutLabel(ls: seq<CardLabel>, labelId: Guid): seq<CardLabel>
    requires labelId in LabelIdsOf(ls)
  {
    var k := FirstIndexOf(ls, labelId);
    ls[..k] + ls[k + 1..]
  }

  /** Removing a label drops exactly that id and keeps every other id in order; on a
      duplicate-free list the id is then gone and the list stays duplicate-free. */
  lemma {:induction false} WithoutLabelSpec(ls: seq<CardLabel>, labelId: Guid)
    requires labelId in LabelIdsOf(ls)
    ensures var k := FirstIndexOf(ls, labelId);
      LabelIdsOf(WithoutLabel(ls, labelId)) == LabelIdsOf(ls)[..k] + LabelIdsOf(ls)[k + 1..]
    ensures |WithoutLabel(ls, labelId)| == |ls| - 1
    ensures Ordering.Distinct(LabelIdsOf(ls)) ==>
              labelId !in LabelIdsOf(WithoutLabel(ls, labelId))
              && Ordering.Distinct(LabelIdsOf(WithoutLabel(ls, labelId)))
  {
    var k := FirstIndexOf(ls, labelId);
    var ids := LabelIdsOf(ls);
    var r := WithoutLabel(ls, labelId);
    assert LabelIdsOf(r) == ids[..k] + ids[k + 1..];
    if Ordering.Distinct(ids) {
      forall j | 0 <= j < |r| ensures r[j].labelId != labelId {
        if j < k {
          assert r[j] == ls[j];
        } else {
          assert r[j] == ls[j + 1];
          assert ids[j + 1] != ids[k];
        }
      }
      forall a, b | 0 <= a < b < |r| ensures LabelIdsOf(r)[a] != LabelIdsOf(r)[b] {
        var a' := if a < k then a else a + 1;
        var b' := if b < k then b else b + 1;
        assert r[a] == ls[a'] && r[b] == ls[b'];
        assert ids[a'] != ids[b'];
      }
    }
  }

  /** Adding a label the card does not carry and removing it again restores the list. */
  lemma {:induction false} AddThenRemoveRestores(ls: seq<CardLabel>, cardId: Guid, labelId: Guid)
    requires labelId !in LabelIdsOf(ls)
    ensures labelId in LabelIdsOf(ls + [CardLabel(cardId, labelId)])
    ensures WithoutLabel(ls + [CardLabel(cardId, labelId)], labelId) == ls
  {
    var added := ls + [CardLabel(cardId, labelId)];
    assert LabelIdsOf(added)[|ls|] == labelId;
    var k := FirstIndexOf(added, labelId);
    assert added[..k] == ls;
  }

  class Card {
    const id: Guid
    var columnId: Guid
    var content: CardContent
    var position: Position
    var cardLabels: seq<CardLabel>

    /** Every assignment belongs to this card and no label is assigned twice. */
    ghost predicate Valid()
      reads this
    {
      Ordering.Distinct(LabelIdsOf(cardLabels))
      && forall k | 0 <= k < |cardLabels| :: cardLabels[k].cardId == id
    }

    function Data(): CardData
      reads this
    {
      CardData(id, columnId, content, position.value, cardLabels)
    }

    /** The private constructor used by the factory. */
    constructor (id: Guid, columnId: Guid, content: CardContent, position: Position)
      ensures Valid()
      ensures Data() == CardData(id, columnId, content, position.value, []) && this.position == position
    {
      this.id := id;
      this.columnId := columnId;
      this.content := content;
      this.position := position;
      this.cardLabels := [];
    }

    /** `Card.CreateInternal`: rejects the empty column id; otherwise a card with no
        labels under the fresh id `newId`. */
    static method CreateInternal(columnId: Guid, content: CardContent, position: Position, newId: Guid)
      returns (r: Result<Card>)
      ensures r.Success? <==> columnId != EmptyGuid
      ensures r.Failure? ==> r.error == ColumnIdEmpty
      ensures r.Success? ==> fresh(r.value) && r.value.Valid()
      ensures r.Success? ==> r.value.Data() == CardData(newId, columnId, content, position.value, [])
    {
      if columnId == EmptyGuid {
        return Failure(ColumnIdEmpty);
      }
      var card := new Card(newId, columnId, content, position);
      return Success(card);
    }

    /** `Card.UpdateContent`: replaces the content and nothing else. */
    method UpdateContent(newContent: CardContent)
      modifies this
      ensures Data() == old(Data()).(content := newContent)
      ensures position == old(position)
    {
      content := newContent;
    }

    /** `Card.Move`: sets column and position; content and labels stay. */
    method Move(newColumnId: Guid, newPosition: Position)
      modifies this
      ensures Data() == old(Data()).(columnId := newColumnId, position := newPosition.value)
      ensures position == newPosition
    {
      columnId := newColumnId;
      position := newPosition;
    }

    /** `Card.GetLabelIds`: the assigned label ids in insertion order. */
    function GetLabelIds(): (ids: seq<Guid>)
      reads this
      ensures |ids| == |cardLabels|
      ensures forall k | 0 <= k < |cardLabels| :: ids[k] == cardLabels[k].labelId
    {
      LabelIdsOf(cardLabels)
    }

    /** `Card.AddLabel`: fails on a label already assigned; otherwise appends exactly
        that assignment, so the ids stay duplicate-free. */
    method AddLabel(labelId: Guid) returns (r: Outcome)
      requires Valid()
      modifies this
      ensures Valid()
      ensures r.Pass? <==> labelId !in old(GetLabelIds())
      ensures r.Fail? ==> r.error == LabelAlreadyAssigned
      ensures cardLabels == if r.Pass? then old(cardLabels) + [CardLabel(id, labelId)] else old(cardLabels)
      ensures columnId == old(columnId) && content == old(content) && position == old(position)
    {
      if labelId in GetLabelIds() {
        return Fail(LabelAlreadyAssigned);
      }
      var assignment := CardLabel(id, labelId);
      ghost var before := cardLabels;
      cardLabels := cardLabels + [assignment];
      assert LabelIdsOf(cardLabels) == LabelIdsOf(before) + [labelId];
      r := Pass;
    }

    /** `Card.RemoveLabel`: fails on a label not assigned; otherwise removes that
        assignment and keeps every other one in order. */
    method RemoveLabel(labelId: Guid) returns (r: Outcome)
      requires Valid()
      modifies this
      ensures Valid()
      ensures r.Pass? <==> labelId in old(GetLabelIds())
      ensures r.Fail? ==> r.error == LabelNotAssigned
      ensures r.Pass? ==> cardLabels == WithoutLabel(old(cardLabels), labelId)
      ensures r.Pass? ==> labelId !in GetLabelIds()
      ensures r.Fail? ==> cardLabels == old(cardLabels)
      ensures columnId == old(columnId) && content == old(content) && position == old(position)
    {
      if labelId !in GetLabelIds() {
        return Fail(LabelNotAssigned);
      }
      WithoutLabelSpec(cardLabels, labelId);
      var k := FirstIndexOf(cardLabels, labelId);
      ghost var before := cardLabels;
      cardLabels := cardLabels[..k] + cardLabels[k + 1..];
      forall j | 0 <= j < |cardLabels| ensures cardLabels[j].cardId == id {
        assert cardLabels[j] == if j < k then before[j] else before[j + 1];
      }
      r := Pass;
    }
  }

  /** A client of the class: on a card without `labelId`, AddLabel then RemoveLabel
      both succeed and leave the assignments as they were. */
  method AddThenRemoveLabel(card: Card, labelId: Guid) returns (added: Outcome, removed: Outcome)
    requires card.Valid() && labelId !in card.GetLabelIds()
    modifies card
    ensures added.Pass? && removed.Pass?
    ensures card.Valid() && card.Data() == old(card.Data())
  {
    added := card.AddLabel(labelId);
    removed := card.RemoveLabel(labelId);
    AddThenRemoveRestores(old(card.cardLabels), card.id, labelId);
  }
}
