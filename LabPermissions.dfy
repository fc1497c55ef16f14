/** Per-lab permissions (`lib/supabase/lab-permissions.ts`): an owner may
    do everything; admins and members are governed by the lab's stored
    `role_permissions`, falling back to built-in defaults. */
module LabPermissions {
  import opened Text
  import opened Labs

  datatype Permission = CreateCollection | PostAnnouncement | ScheduleJournalClub | UploadFiles | CreateLabNotes {
    /** The key the permission is stored under. */
    function Name(): string {
      match this
      case CreateCollection => "create_collection"
      case PostAnnouncement => "post_announcement"
      case ScheduleJournalClub => "schedule_journal_club"
      case UploadFiles => "upload_files"
      case CreateLabNotes => "create_lab_notes"
    }
  }

  /** The stored settings: role, then permission name; a `None` value is
      a JSON `null`. */
  type RolePermissions = map<string, map<string, Option<bool>>>

  /** `DEFAULTS`: the built-in settings of the two configurable roles; no
      other role has defaults. */
  function Default(role: string, p: Permission): (r: Option<bool>)
    ensures r.Some? <==> role == "admin" || role == "member"
  {
    if role == "admin" then Some(true)
    else if role == "member" then Some(p != CreateCollection && p != ScheduleJournalClub)
    else None
  }

  /** Admins have every permission by default; members only post
      announcements, upload files and create lab notes. */
  lemma Defaults(p: Permission)
    ensures Default("admin", p) == Some(true)
    ensures Default("member", p) == Some(true) <==> p in {PostAnnouncement, UploadFiles, CreateLabNotes}
    ensures Default("member", p) == Some(false) <==> p in {CreateCollection, ScheduleJournalClub}
  {
  }

  /** The permissions stored for the lab: those of its row, found with
      `.single()`, or nothing when the row is missing or the column is
      null. */
  function StoredPermissions(db: LabStore, labId: string): (r: RolePermissions)
    ensures var lab := Single(Filter(db.labs, (l: LabRow) => l.id == labId));
            r != map[] ==> lab.Some? && lab.value.rolePermissions == Some(r)
  {
    var lab := Single(Filter(db.labs, (l: LabRow) => l.id == labId));
    if lab.Some? && lab.value.rolePermissions.Some? then lab.value.rolePermissions.value else map[]
  }

  /** `perms?.[role]?.[permission]`: the stored setting, when set and not
      null. */
  function Stored(perms: RolePermissions, role: string, p: Permission): Option<bool> {
    if role in perms && p.Name() in perms[role] then perms[role][p.Name()] else None
  }

  /** `hasLabPermission`. */
  function HasLabPermission(db: LabStore, labId: string, userId: string, p: Permission): bool {
    var role := RequireLabRole(db, labId, userId, None);
    if role.None? || role.value == "" then false
    else if role.value == "owner" then true
    else
      var stored := Stored(StoredPermissions(db, labId), role.value, p);
      if stored.Some? then stored.value
      else Default(role.value, p).GetOr(false)
  }

  /** Without a membership nothing is permitted. */
  lemma NonMemberDenied(db: LabStore, labId: string, userId: string, p: Permission)
    requires RequireLabRole(db, labId, userId, None).None?
    ensures !HasLabPermission(db, labId, userId, p)
  {
  }

  /** An owner has every permission, whatever is stored. */
  lemma OwnerAllowed(db: LabStore, labId: string, userId: string, p: Permission)
    requires RequireLabRole(db, labId, userId, None) == Some("owner")
    ensures HasLabPermission(db, labId, userId, p)
  {
  }

  /** For any other role a stored non-null setting decides, an explicit
      `false` over a default `true` included; otherwise the role's default
      decides, and a role without defaults is refused. */
  lemma SettingDecides(db: LabStore, labId: string, userId: string, p: Permission)
    requires var role := RequireLabRole(db, labId, userId, None);
             role.Some? && role.value != "" && role.value != "owner"
    ensures var role := RequireLabRole(db, labId, userId, None).value;
            var stored := Stored(StoredPermissions(db, labId), role, p);
            && (stored.Some? ==> (HasLabPermission(db, labId, userId, p) <==> stored.value))
            && (stored.None? ==> (HasLabPermission(db, labId, userId, p) <==> Default(role, p) == Some(true)))
            && (stored.None? && role != "admin" && role != "member" ==> !HasLabPermission(db, labId, userId, p))
  {
  }

  /** The defaults of `role`, keyed by permission name. */
  function DefaultMap(role: string): map<string, Option<bool>> {
    map[CreateCollection.Name() := Default(role, CreateCollection),
        PostAnnouncement.Name() := Default(role, PostAnnouncement),
        ScheduleJournalClub.Name() := Default(role, ScheduleJournalClub),
        UploadFiles.Name() := Default(role, UploadFiles),
        CreateLabNotes.Name() := Default(role, CreateLabNotes)]
  }

  /** `{ ...DEFAULTS[role], ...perms?.[role] }`: the defaults with every
      stored key written over them, `null` values and unknown keys
      included. */
  function Overlay(role: string, perms: RolePermissions): map<string, Option<bool>> {
    if role in perms then DefaultMap(role) + perms[role] else DefaultMap(role)
  }

  /** What `getLabPermissions` returns: the admin view and the member
      view. */
  datatype LabPermissionsView = LabPermissionsView(admin: map<string, Option<bool>>, member: map<string, Option<bool>>)

  /** `getLabPermissions`. */
  function GetLabPermissions(db: LabStore, labId: string): LabPermissionsView {
    var perms := StoredPermissions(db, labId);
    LabPermissionsView(Overlay("admin", perms), Overlay("member", perms))
  }

  /** Each view lists every permission; a permission shows its stored
      value when one is stored under its name (`null` included) and its
      default otherwise, and the view holds nothing beyond the permissions
      and the stored keys. */
  lemma ViewEntries(db: LabStore, labId: string, role: string, p: Permission)
    requires role == "admin" || role == "member"
    ensures var perms := StoredPermissions(db, labId);
            var view := if role == "admin" then GetLabPermissions(db, labId).admin
                        else GetLabPermissions(db, labId).member;
            && p.Name() in view
            && (role in perms && p.Name() in perms[role] ==> view[p.Name()] == perms[role][p.Name()])
            && (!(role in perms && p.Name() in perms[role]) ==> view[p.Name()] == Default(role, p))
            && (forall k :: k in view ==> k in DefaultMap(role) || (role in perms && k in perms[role]))
  {
  }

  /** The view shows what the check decides for an admin or a member,
      except where a `null` is stored: the view then shows `null` while the
      check falls back to the default. */
  lemma ViewMatchesCheck(db: LabStore, labId: string, userId: string, p: Permission)
    requires var role := RequireLabRole(db, labId, userId, None);
             role == Some("admin") || role == Some("member")
    ensures var role := RequireLabRole(db, labId, userId, None).value;
            var perms := StoredPermissions(db, labId);
            var view := if role == "admin" then GetLabPermissions(db, labId).admin
                        else GetLabPermissions(db, labId).member;
            && (view[p.Name()].Some? ==> view[p.Name()] == Some(HasLabPermission(db, labId, userId, p)))
            && (view[p.Name()].None? ==> HasLabPermission(db, labId, userId, p) == Default(role, p).value)
  {
    ViewEntries(db, labId, RequireLabRole(db, labId, userId, None).value, p);
  }
}
