/** Label.cs: a named, coloured label. */
module Labels {
  import opened Common
  import opened Text
  import LabelColors

  const MaxNameLength: nat := 50

  /** `Label.ValidateName`: non-blank, at most 50 UTF-16 code units. */
  function ValidateName(name: string): (r: Outcome)
    ensures r.Pass? <==> !IsBlank(name) && Utf16Length(name) <= MaxNameLength
    ensures IsBlank(name) ==> r == Fail(LabelNameEmpty)
    ensures r.Fail? && !IsBlank(name) ==> r == Fail(LabelNameTooLong(MaxNameLength))
  {
    if IsBlank(name) then Fail(LabelNameEmpty)
    else if Utf16Length(name) > MaxNameLength then Fail(LabelNameTooLong(MaxNameLength))
    else Pass
  }

  /** `Label.ValidateColor`: non-blank and one of the palette entries. */
  function ValidateColor(color: string): Outcome
  {
    if IsBlank(color) then Fail(LabelColorEmpty)
    else if !LabelColors.IsValid(color) then Fail(LabelColorInvalid(color))
    else Pass
  }

  /** The blank check is subsumed by the palette check: a colour is accepted exactly
      when it is a palette entry, and a palette miss that is blank reports "empty". */
  lemma {:induction false} ValidateColorIsPaletteMembership(color: string)
    ensures ValidateColor(color).Pass? <==> LabelColors.IsValid(color)
    ensures !LabelColors.IsValid(color) && !IsBlank(color) ==> ValidateColor(color) == Fail(LabelColorInvalid(color))
  {
    if LabelColors.IsValid(color) {
      assert !IsWhiteSpace(color[0]) by {
        assert color in LabelColors.All;
      }
      assert !IsBlank(color);
    }
  }

  class Label {
    const id: Guid
    var name: string
    var color: string

    constructor (id: Guid, name: string, color: string)
      ensures this.id == id && this.name == name && this.color == color
    {
      this.id := id;
      this.name := name;
      this.color := color;
    }

    /** `Label.Create`: validates name then colour, and on success carries exactly
        the given name and colour under the fresh id `newId`. */
    static method Create(name: string, color: string, newId: Guid) returns (r: Result<Label>)
      ensures r.Success? <==>
                !IsBlank(name) && Utf16Length(name) <= MaxNameLength && LabelColors.IsValid(color)
      ensures r.Failure? && ValidateName(name).Fail? ==> r.error == ValidateName(name).error
      ensures r.Failure? && ValidateName(name).Pass? ==> r.error == ValidateColor(color).error
      ensures r.Success? ==> fresh(r.value) && r.value.id == newId
      ensures r.Success? ==> r.value.name == name && r.value.color == color
    {
      ValidateColorIsPaletteMembership(color);
      var n := ValidateName(name);
      if n.Fail? {
        return Failure(n.error);
      }
      var c := ValidateColor(color);
      if c.Fail? {
        return Failure(c.error);
      }
      var created := new Label(newId, name, color);
      return Success(created);
    }

    /** `Label.Update`: both checks run before either field is assigned, so a failed
        update changes nothing; a successful one sets both fields. */
    method Update(newName: string, newColor: string) returns (r: Outcome)
      modifies this
      ensures r.Pass? <==>
                !IsBlank(newName) && Utf16Length(newName) <= MaxNameLength && LabelColors.IsValid(newColor)
      ensures r.Fail? && ValidateName(newName).Fail? ==> r == ValidateName(newName)
      ensures r.Fail? && ValidateName(newName).Pass? ==> r == ValidateColor(newColor)
      ensures r.Pass? ==> name == newName && color == newColor
      ensures r.Fail? ==> name == old(name) && color == old(color)
    {
      ValidateColorIsPaletteMembership(newColor);
      r := ValidateName(newName);
      if r.Fail? {
        return;
      }
      r := ValidateColor(newColor);
      if r.Fail? {
        return;
      }
      name := newName;
      color := newColor;
    }
  }
}
