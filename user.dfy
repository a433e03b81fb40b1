/** User.cs: a user identified by an e-mail address, with a display name. A user is
    built once by `Create` and never changed, so it is a value here. */
module Users {
  import opened Common
  import opened Text

  const MaxEmailLength: nat := 254
  const MaxDisplayNameLength: nat := 100

  /** The domain event a user raises (the timestamp is not modelled). */
  datatype UserEvent = UserCreated(userId: Guid, email: string, displayName: string)

  /** A created user with the events recorded on it. */
  datatype User = User(id: Guid, email: string, displayName: string, events: seq<UserEvent>)

  /** `User.ValidateEmail`: non-blank, then at most 254 UTF-16 code units, then an '@'. */
  function ValidateEmail(email: string): (r: Outcome)
    ensures r.Pass? <==> !IsBlank(email) && Utf16Length(email) <= MaxEmailLength && '@' in email
    ensures IsBlank(email) ==> r == Fail(EmailEmpty)
    ensures !IsBlank(email) && Utf16Length(email) > MaxEmailLength ==> r == Fail(EmailTooLong(MaxEmailLength))
    ensures r.Fail? && !IsBlank(email) && Utf16Length(email) <= MaxEmailLength ==> r == Fail(EmailMissingAt)
  {
    if IsBlank(email) then Fail(EmailEmpty)
    else if Utf16Length(email) > MaxEmailLength then Fail(EmailTooLong(MaxEmailLength))
    else if '@' !in email then Fail(EmailMissingAt)
    else Pass
  }

  /** `User.ValidateDisplayName`: non-blank, at most 100 UTF-16 code units. */
  function ValidateDisplayName(displayName: string): (r: Outcome)
    ensures r.Pass? <==> !IsBlank(displayName) && Utf16Length(displayName) <= MaxDisplayNameLength
    ensures IsBlank(displayName) ==> r == Fail(DisplayNameEmpty)
    ensures r.Fail? && !IsBlank(displayName) ==> r == Fail(DisplayNameTooLong(MaxDisplayNameLength))
  {
    if IsBlank(displayName) then Fail(DisplayNameEmpty)
    else if Utf16Length(displayName) > MaxDisplayNameLength then Fail(DisplayNameTooLong(MaxDisplayNameLength))
    else Pass
  }

  /** What every created user satisfies. */
  predicate Valid(u: User)
  {
    ValidateEmail(u.email).Pass? && ValidateDisplayName(u.displayName).Pass?
  }

  /** `User.Create`: the e-mail is checked before the display name; a new user carries
      exactly the given e-mail and display name under the fresh id `newId`, with one
      UserCreated event. */
  function Create(email: string, displayName: string, newId: Guid): (r: Result<User>)
    ensures r.Success? <==> ValidateEmail(email).Pass? && ValidateDisplayName(displayName).Pass?
    ensures r.Failure? ==>
              Fail(r.error) == if ValidateEmail(email).Fail? then ValidateEmail(email) else ValidateDisplayName(displayName)
    ensures r.Success? ==> Valid(r.value) && r.value.id == newId
                           && r.value.email == email && r.value.displayName == displayName
    ensures r.Success? ==> r.value.events == [UserCreated(newId, email, displayName)]
  {
    var e := ValidateEmail(email);
    if e.Fail? then Failure(e.error)
    else
      var d := ValidateDisplayName(displayName);
      if d.Fail? then Failure(d.error)
      else Success(User(newId, email, displayName, [UserCreated(newId, email, displayName)]))
  }
}
