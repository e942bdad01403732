/** Permission tuples and the normalization of src/services/permissions.py. */
module Relationships {
  import opened Wrappers
  import opened SharePolicy

  datatype Ref = Ref(objectType: ObjectType, objectId: string)

  /** A stored tuple.  `userset` is the subject's optional relation, as in `role:eng#member`. */
  datatype Relationship = Relationship(resource: Ref, relation: string, subject: Ref, userset: Option<string>)

  /** A tuple as a caller passes it.  `None` stands for UNDEFINED or None. */
  datatype RawRef = RawRef(objectType: string, objectId: Option<string>)
  datatype RawRelationship =
    RawRelationship(resource: RawRef, relation: string, subject: RawRef, userset: Option<string>)

  datatype Error =
    | Structural | UnsupportedResourceType | MissingResourceId | NotFound | ResourceMismatch
    | UnsupportedSubjectType | InvalidSubject | MissingSubjectId | UsersetOnUser | UnsupportedUserset
    | OwnerNotWritable | UnsupportedRelation | Denied

  datatype Result<+T> = Ok(value: T) | Err(error: Error)

  predicate IsStructural(resourceType: string, relation: string, subjectType: string) {
    if resourceType == "note" then relation == "parent_directory" && subjectType == "directory"
    else resourceType == "directory" && relation == "parent" && subjectType in {"directory", "shelf"}
  }

  predicate IsStructuralTuple(r: Relationship) {
    IsStructural(TypeName(r.resource.objectType), r.relation, TypeName(r.subject.objectType))
  }

  function ValidateResource(resource: RawRef): Result<Ref> {
    match ParseType(resource.objectType)
    case None => Err(UnsupportedResourceType)
    case Some(t) =>
      if resource.objectId.None? then Err(MissingResourceId)
      else if t in {NoteType, DirectoryType, ShelfType, RoleType} then Ok(Ref(t, resource.objectId.value))
      else Err(UnsupportedResourceType)
  }

  function NormalizeUserset(subjectType: ObjectType, userset: Option<string>): Result<Option<string>> {
    if subjectType == UserType then if userset.None? then Ok(None) else Err(UsersetOnUser)
    else if userset.None? || userset.value == "member" then Ok(Some("member"))
    else Err(UnsupportedUserset)
  }

  function Normalize(raw: RawRelationship, expected: Ref): Result<Relationship> {
    if IsStructural(raw.resource.objectType, raw.relation, raw.subject.objectType) then Err(Structural)
    else
      match ValidateResource(raw.resource)
      case Err(e) => Err(e)
      case Ok(resource) =>
        if resource != expected then Err(ResourceMismatch)
        else
          match ParseType(raw.subject.objectType)
          case None => Err(UnsupportedSubjectType)
          case Some(subjectType) =>
            if subjectType !in {UserType, RoleType} then Err(InvalidSubject)
            else if raw.subject.objectId.None? then Err(MissingSubjectId)
            else
              match NormalizeUserset(subjectType, raw.userset)
              case Err(e) => Err(e)
              case Ok(userset) =>
                if raw.relation in Capabilities(resource.objectType)
                then Ok(Relationship(resource, raw.relation, Ref(subjectType, raw.subject.objectId.value), userset))
                else if raw.relation == "owner" then Err(OwnerNotWritable)
                else Err(UnsupportedRelation)
  }

  // ---- what the schema allows -------------------------------------------------------

  /** A relation that can be written through the share API. */
  predicate Grantable(r: Relationship) {
    r.relation in Capabilities(r.resource.objectType)
  }

  /** The subjects that src/db/migrations/schema.zed allows on every grantable relation: `user | role#member`. */
  predicate SchemaSubject(r: Relationship) {
    (r.subject.objectType == UserType && r.userset == None) ||
    (r.subject.objectType == RoleType && r.userset == Some("member"))
  }

  ghost predicate Conforms(tuples: set<Relationship>) {
    forall t :: t in tuples && Grantable(t) ==> SchemaSubject(t)
  }

  /** Normalization accepts only what the schema can store, and leaves such a tuple as it is. */
  lemma NormalizeSound(raw: RawRelationship, expected: Ref)
    requires Normalize(raw, expected).Ok?
    ensures
      var r := Normalize(raw, expected).value;
      r.resource == expected && Grantable(r) && SchemaSubject(r) && r.relation != "owner" && !IsStructuralTuple(r)
  {
    var r := Normalize(raw, expected).value;
    ProtectedRelations(r.resource.objectType);
    assert r.subject.objectType in {UserType, RoleType};
    assert TypeName(r.subject.objectType) !in {"directory", "shelf"};
  }

  function AsRaw(r: Relationship): RawRelationship {
    RawRelationship(RawRef(TypeName(r.resource.objectType), Some(r.resource.objectId)), r.relation,
                    RawRef(TypeName(r.subject.objectType), Some(r.subject.objectId)), r.userset)
  }

  /** A tuple is accepted unchanged exactly if it is grantable and its subject fits the schema: reading the stored
      tuples and writing them back is always possible, except for the protected ones. */
  lemma NormalizeComplete(r: Relationship)
    ensures Normalize(AsRaw(r), r.resource) == Ok(r) <==> Grantable(r) && SchemaSubject(r)
  {
    assert forall t :: ParseType(TypeName(t)) == Some(t);
    ProtectedRelations(r.resource.objectType);
    if Grantable(r) && SchemaSubject(r) {
      assert !IsStructuralTuple(r);
      assert r.resource.objectType in {NoteType, DirectoryType, ShelfType, RoleType};
    }
    if Normalize(AsRaw(r), r.resource) == Ok(r) {
      NormalizeSound(AsRaw(r), r.resource);
    }
  }

  /** A role as a subject stands for its members, whether the caller says so or not. */
  lemma RoleMeansMembers(raw: RawRelationship, expected: Ref)
    requires raw.subject.objectType == "role"
    ensures Normalize(raw.(userset := None), expected) == Normalize(raw.(userset := Some("member")), expected)
    ensures Normalize(raw, expected).Ok? ==>
      raw.userset in {None, Some("member")} && Normalize(raw, expected).value.userset == Some("member")
  {
    hide Capabilities, IsStructural, ValidateResource;
    assert ParseType("role") == Some(RoleType);
    assert NormalizeUserset(RoleType, None) == NormalizeUserset(RoleType, Some("member"));
  }

  /** A user as a subject stands for itself. */
  lemma UserIsSingle(raw: RawRelationship, expected: Ref)
    requires raw.subject.objectType == "user" && Normalize(raw, expected).Ok?
    ensures raw.userset == None && Normalize(raw, expected).value.userset == None
  {
  }

  // ---- keys and the delete filter ------------------------------------------------------

  /** The key under which the replacement diff compares tuples. */
  function Key(r: Relationship): (string, string, string, string, string, string) {
    (TypeName(r.resource.objectType), r.resource.objectId, r.relation,
     TypeName(r.subject.objectType), r.subject.objectId, if r.userset.Some? then r.userset.value else "")
  }

  /** The backend never reports an empty optional relation. */
  ghost predicate Readable(r: Relationship) {
    r.userset != Some("")
  }

  lemma TypeNameInjective(a: ObjectType, b: ObjectType)
    ensures TypeName(a) == TypeName(b) <==> a == b
  {
    assert ParseType(TypeName(a)) == Some(a);
    assert ParseType(TypeName(b)) == Some(b);
  }

  lemma KeyInjective(a: Relationship, b: Relationship)
    requires Readable(a) && Readable(b)
    ensures Key(a) == Key(b) <==> a == b
  {
    hide TypeName;
    TypeNameInjective(a.resource.objectType, b.resource.objectType);
    TypeNameInjective(a.subject.objectType, b.subject.objectType);
  }

  /** Deleting a tuple uses it as a filter: a missing optional relation matches every subject relation. */
  predicate Matches(pattern: Relationship, t: Relationship) {
    && t.resource == pattern.resource && t.relation == pattern.relation && t.subject == pattern.subject
    && (pattern.userset.None? || t.userset == pattern.userset)
  }

  function Unmatched(tuples: set<Relationship>, pattern: Relationship): set<Relationship> {
    set t | t in tuples && !Matches(pattern, t)
  }

  /** On a store that conforms to the schema the filter hits exactly the one tuple. */
  lemma FilterIsExact(tuples: set<Relationship>, pattern: Relationship)
    requires Conforms(tuples) && Grantable(pattern) && SchemaSubject(pattern)
    ensures Unmatched(tuples, pattern) == tuples - {pattern}
  {
    forall t | t in tuples && Matches(pattern, t)
      ensures t == pattern
    {
      assert Grantable(t);
    }
  }
}
