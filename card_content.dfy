/** CardContent.cs: the immutable title and description of a card. */
module CardContents {
  import opened Common
  import opened Text

  const MaxTitleLength: nat := 200
  const MaxDescriptionLength: nat := 5000

  /** Value equality over (Title, Description) is datatype equality. */
  datatype CardContent = CardContent(title: string, description: string)
  {
    /** `CardContent.Update`: a fresh content built exactly as `Create` builds it;
        the receiver's own fields play no part. */
    function Update(title: string, description: Option<string>): (r: Result<CardContent>)
      ensures r == Create(title, description)
    {
      Create(title, description)
    }
  }

  /** `CardContent.ValidateTitle`: non-blank, at most 200 UTF-16 code units. */
  function ValidateTitle(title: string): (r: Outcome)
    ensures r.Pass? <==> !IsBlank(title) && Utf16Length(title) <= MaxTitleLength
    ensures IsBlank(title) ==> r == Fail(CardTitleEmpty)
    ensures r.Fail? && !IsBlank(title) ==> r == Fail(CardTitleTooLong(MaxTitleLength))
  {
    if IsBlank(title) then Fail(CardTitleEmpty)
    else if Utf16Length(title) > MaxTitleLength then Fail(CardTitleTooLong(MaxTitleLength))
    else Pass
  }

  /** A null description (None) is accepted. */
  function ValidateDescription(description: Option<string>): (r: Outcome)
    ensures r.Pass? <==> description.None? || Utf16Length(description.value) <= MaxDescriptionLength
    ensures r.Fail? ==> r == Fail(CardDescriptionTooLong(MaxDescriptionLength))
  {
    if description.Some? && Utf16Length(description.value) > MaxDescriptionLength
    then Fail(CardDescriptionTooLong(MaxDescriptionLength))
    else Pass
  }

  /** `CardContent.Create`: the title is checked first, then the description; a null
      description is stored as the empty string. */
  function Create(title: string, description: Option<string>): (r: Result<CardContent>)
    ensures r.Success? <==>
              !IsBlank(title) && Utf16Length(title) <= MaxTitleLength
              && (description.None? || Utf16Length(description.value) <= MaxDescriptionLength)
    ensures r.Success? ==> r.value.title == title
    ensures r.Success? ==> r.value.description == (if description.Some? then description.value else "")
    ensures IsBlank(title) ==> r == Failure(CardTitleEmpty)
    ensures !IsBlank(title) && Utf16Length(title) > MaxTitleLength ==> r == Failure(CardTitleTooLong(MaxTitleLength))
    ensures r.Failure? && r.error.CardDescriptionTooLong? ==>
              description.Some? && Utf16Length(description.value) > MaxDescriptionLength
  {
    var t := ValidateTitle(title);
    if t.Fail? then Failure(t.error)
    else
      var d := ValidateDescription(description);
      if d.Fail? then Failure(d.error)
      else Success(CardContent(title, if description.Some? then description.value else ""))
  }

  /** A stored content always satisfies the rules it was validated against, and a null
      and an empty description produce the same content. */
  lemma CreatedContentIsValid(title: string, description: Option<string>)
    requires Create(title, description).Success?
    ensures var c := Create(title, description).value;
      !IsBlank(c.title) && Utf16Length(c.title) <= MaxTitleLength
      && Utf16Length(c.description) <= MaxDescriptionLength
    ensures Create(title, description) == Create(title, Some(if description.Some? then description.value else ""))
  {
  }

  /** Value equality: two contents are equal exactly when title and description are. */
  lemma EqualityByComponents(a: CardContent, b: CardContent)
    ensures a == b <==> a.title == b.title && a.description == b.description
  {
  }
}
