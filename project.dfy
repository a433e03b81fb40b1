/** Project.cs: a named project owned by one user. Creation checks the name, the
    description and the owner in that order; an update checks the name and the
    description before assigning either. */
module Projects {
  import opened Common
  import opened Text

  const MaxNameLength: nat := 100
  const MaxDescriptionLength: nat := 1000

  /** The domain event a project raises (the timestamp is not modelled). */
  datatype ProjectEvent = ProjectCreated(projectId: Guid, name: string, ownerId: Guid)

  /** `Project.ValidateName`: non-blank, at most 100 UTF-16 code units. */
  function ValidateName(name: string): (r: Outcome)
    ensures r.Pass? <==> !IsBlank(name) && Utf16Length(name) <= MaxNameLength
    ensures IsBlank(name) ==> r == Fail(ProjectNameEmpty)
    ensures r.Fail? && !IsBlank(name) ==> r == Fail(ProjectNameTooLong(MaxNameLength))
  {
    if IsBlank(name) then Fail(ProjectNameEmpty)
    else if Utf16Length(name) > MaxNameLength then Fail(ProjectNameTooLong(MaxNameLength))
    else Pass
  }

  /** `Project.ValidateDescription`: a missing (null) description is accepted; a
      present one may have at most 1000 UTF-16 code units. */
  function ValidateDescription(description: Option<string>): (r: Outcome)
    ensures r.Pass? <==> description.None? || Utf16Length(description.value) <= MaxDescriptionLength
    ensures r.Fail? ==> r == Fail(ProjectDescriptionTooLong(MaxDescriptionLength))
  {
    if description.Some? && Utf16Length(description.value) > MaxDescriptionLength then
      Fail(ProjectDescriptionTooLong(MaxDescriptionLength))
    else Pass
  }

  /** `Project.ValidateOwnerId`: the owner must not be the empty Guid. */
  function ValidateOwnerId(ownerId: Guid): (r: Outcome)
    ensures r.Pass? <==> ownerId != EmptyGuid
    ensures r.Fail? ==> r == Fail(OwnerIdEmpty)
  {
    if ownerId == EmptyGuid then Fail(OwnerIdEmpty) else Pass
  }

  /** `description ?? string.Empty`: what is stored for a description. */
  function StoredDescription(description: Option<string>): (s: string)
    ensures description.Some? ==> s == description.value
    ensures description.None? ==> s == ""
  {
    if description.Some? then description.value else ""
  }

  /** The stored form of an accepted description is itself within the limit. */
  lemma StoredDescriptionWithinLimit(description: Option<string>)
    requires ValidateDescription(description).Pass?
    ensures Utf16Length(StoredDescription(description)) <= MaxDescriptionLength
  {
  }

  class Project {
    const id: Guid
    var name: string
    var description: string
    var ownerId: Guid
    var events: seq<ProjectEvent>

    /** What every project satisfies after `Create` and keeps across `Update`. */
    ghost predicate Valid()
      reads this
    {
      ValidateName(name).Pass? && Utf16Length(description) <= MaxDescriptionLength
      && ownerId != EmptyGuid
    }

    /** The private constructor behind `Create`. */
    constructor (id: Guid, name: string, description: string, ownerId: Guid)
      ensures this.id == id && this.name == name && this.description == description
      ensures this.ownerId == ownerId && events == []
    {
      this.id := id;
      this.name := name;
      this.description := description;
      this.ownerId := ownerId;
      events := [];
    }

    /** `Project.Create`: name, then description, then owner are checked; a new
        project stores the given name, the description (null as ""), the owner, and
        one ProjectCreated event. */
    static method Create(name: string, description: Option<string>, ownerId: Guid, newId: Guid)
      returns (r: Result<Project>)
      ensures r.Success? <==>
                ValidateName(name).Pass? && ValidateDescription(description).Pass? && ownerId != EmptyGuid
      ensures r.Failure? ==>
                Fail(r.error) == if ValidateName(name).Fail? then ValidateName(name)
                                 else if ValidateDescription(description).Fail? then ValidateDescription(description)
                                 else ValidateOwnerId(ownerId)
      ensures r.Success? ==> fresh(r.value) && r.value.Valid() && r.value.id == newId
      ensures r.Success? ==> r.value.name == name && r.value.description == StoredDescription(description)
                             && r.value.ownerId == ownerId
      ensures r.Success? ==> r.value.events == [ProjectCreated(newId, name, ownerId)]
    {
      var n := ValidateName(name);
      if n.Fail? {
        return Failure(n.error);
      }
      var d := ValidateDescription(description);
      if d.Fail? {
        return Failure(d.error);
      }
      var o := ValidateOwnerId(ownerId);
      if o.Fail? {
        return Failure(o.error);
      }
      StoredDescriptionWithinLimit(description);
      var project := new Project(newId, name, StoredDescription(description), ownerId);
      project.events := [ProjectCreated(newId, name, ownerId)];
      return Success(project);
    }

    /** `Project.Update`: both checks run before either field is assigned, so a failed
        update changes nothing; the owner and the events never change. */
    method Update(newName: string, newDescription: Option<string>) returns (r: Outcome)
      requires Valid()
      modifies this
      ensures Valid()
      ensures r == if ValidateName(newName).Fail? then ValidateName(newName) else ValidateDescription(newDescription)
      ensures r.Pass? ==> name == newName && description == StoredDescription(newDescription)
      ensures r.Fail? ==> name == old(name) && description == old(description)
      ensures ownerId == old(ownerId) && events == old(events)
    {
      r := ValidateName(newName);
      if r.Fail? {
        return;
      }
      r := ValidateDescription(newDescription);
      if r.Fail? {
        return;
      }
      StoredDescriptionWithinLimit(newDescription);
      name := newName;
      description := StoredDescription(newDescription);
    }
  }
}
