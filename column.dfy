/** Column.cs: a named, positioned column owned by a board. */
module Columns {
  import opened Common
  import opened Text
  import opened Positions

  const MaxNameLength: nat := 50

  /** The observable state of a column: its id, name and position value. */
  datatype ColumnData = ColumnData(id: Guid, name: string, position: nat)

  /** `Column.ValidateName`: non-blank, at most 50 UTF-16 code units. */
  function ValidateName(name: string): (r: Outcome)
    ensures r.Pass? <==> !IsBlank(name) && Utf16Length(name) <= MaxNameLength
    ensures IsBlank(name) ==> r == Fail(ColumnNameEmpty)
    ensures r.Fail? && !IsBlank(name) ==> r == Fail(ColumnNameTooLong(MaxNameLength))
  {
    if IsBlank(name) then Fail(ColumnNameEmpty)
    else if Utf16Length(name) > MaxNameLength then Fail(ColumnNameTooLong(MaxNameLength))
    else Pass
  }

  class Column {
    const id: Guid
    var name: string
    var position: Position

    function Data(): ColumnData
      reads this
    {
      ColumnData(id, name, position.value)
    }

    /** The private constructor used by the factory. */
    constructor (id: Guid, name: string, position: Position)
      ensures Data() == ColumnData(id, name, position.value) && this.position == position
    {
      this.id := id;
      this.name := name;
      this.position := position;
    }

    /** `Column.CreateInternal`: validates the name, then builds a column carrying exactly
        the given name and position under the fresh id `newId`. */
    static method CreateInternal(name: string, position: Position, newId: Guid) returns (r: Result<Column>)
      ensures r.Success? <==> !IsBlank(name) && Utf16Length(name) <= MaxNameLength
      ensures r.Failure? ==> Fail(r.error) == ValidateName(name)
      ensures r.Success? ==> fresh(r.value) && r.value.Data() == ColumnData(newId, name, position.value)
      ensures r.Success? ==> r.value.position == position
    {
      var v := ValidateName(name);
      if v.Fail? {
        return Failure(v.error);
      }
      var column := new Column(newId, name, position);
      return Success(column);
    }

    /** `Column.UpdateName`: validates before assigning, so a rejected name changes nothing. */
    method UpdateName(newName: string) returns (r: Outcome)
      modifies this
      ensures r == ValidateName(newName)
      ensures r.Pass? <==> !IsBlank(newName) && Utf16Length(newName) <= MaxNameLength
      ensures Data() == if r.Pass? then old(Data()).(name := newName) else old(Data())
      ensures position == old(position)
    {
      r := ValidateName(newName);
      if r.Fail? {
        return;
      }
      name := newName;
    }

    /** `Column.UpdatePosition`: changes the position and nothing else. */
    method UpdatePosition(p: Position)
      modifies this
      ensures Data() == old(Data()).(position := p.value) && position == p
    {
      position := p;
    }
  }
}
