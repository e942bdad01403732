/** The share policy of src/domain/share_policy.py: which relations can be written, and the capability each needs. */
module SharePolicy {
  import opened Wrappers

  datatype ObjectType = NoteType | DirectoryType | UserType | AttachmentType | RoleType | ShelfType | PageType

  function TypeName(t: ObjectType): string {
    match t
    case NoteType => "note"
    case DirectoryType => "directory"
    case UserType => "user"
    case AttachmentType => "attachment"
    case RoleType => "role"
    case ShelfType => "shelf"
    case PageType => "page"
  }

  function ParseType(name: string): (r: Option<ObjectType>)
    ensures r.Some? ==> TypeName(r.value) == name
    ensures r.None? ==> forall t :: TypeName(t) != name
  {
    if name == "note" then Some(NoteType)
    else if name == "directory" then Some(DirectoryType)
    else if name == "user" then Some(UserType)
    else if name == "attachment" then Some(AttachmentType)
    else if name == "role" then Some(RoleType)
    else if name == "shelf" then Some(ShelfType)
    else if name == "page" then Some(PageType)
    else None
  }

  const ACCESS_CAPABILITIES: map<string, string> := map[
    "reader" := "can_grant_read",
    "writer" := "can_grant_write",
    "admin" := "can_grant_admin",
    "grant_read" := "can_delegate_read",
    "grant_write" := "can_delegate_write",
    "grant_admin" := "can_delegate_admin",
    "delegate_read" := "can_assign_delegate_read",
    "delegate_write" := "can_assign_delegate_write",
    "delegate_admin" := "can_assign_delegate_admin"
  ]

  const ROLE_CAPABILITIES: map<string, string> := map[
    "grant_member" := "can_delegate_member",
    "delegate_member" := "can_assign_delegate_member"
  ]

  function Capabilities(t: ObjectType): map<string, string> {
    match t
    case NoteType | DirectoryType | ShelfType => ACCESS_CAPABILITIES
    case RoleType => ROLE_CAPABILITIES
    case _ => map[]
  }

  /** Neither ownership, nor the hierarchy, nor role membership can be written through the share API. */
  lemma ProtectedRelations(t: ObjectType)
    ensures "owner" !in Capabilities(t) && "parent" !in Capabilities(t) && "parent_directory" !in Capabilities(t)
    ensures "member" !in Capabilities(t) && (t == RoleType ==> "admin" !in Capabilities(t))
    ensures t in {UserType, AttachmentType, PageType} ==> Capabilities(t) == map[]
  {
  }
}
