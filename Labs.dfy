/** Lab membership and shared collections (`lib/supabase/labs.ts`). The
    lab tables are values; each is a sequence of rows in the order the
    store lists them. */
module Labs {
  import opened Text

  /** A `lab_members` row; the role is stored as text. */
  datatype MemberRow = MemberRow(labId: string, userId: string, role: string)

  /** A `labs` row; the role permissions are JSON, see `LabPermissions`. */
  datatype LabRow = LabRow(id: string, name: string, rolePermissions: Option<map<string, map<string, Option<bool>>>>)

  /** A `lab_collections` row. */
  datatype LabCollectionRow = LabCollectionRow(
    id: string, labId: string, collectionId: string, createdBy: string, pinned: Option<bool>)

  /** A `collections` row. */
  datatype CollectionRow = CollectionRow(id: string, name: string, userId: string)

  /** A `lab_collection_contributors` row. */
  datatype ContributorRow = ContributorRow(labCollectionId: string, userId: string)

  datatype LabStore = LabStore(
    members: seq<MemberRow>, labs: seq<LabRow>, labCollections: seq<LabCollectionRow>,
    collections: seq<CollectionRow>, contributors: seq<ContributorRow>)

  /** `.single()`: the row when exactly one matches, otherwise nothing (no
      row, or an error for several). */
  function Single<T>(rows: seq<T>): (r: Option<T>)
    ensures r.Some? <==> |rows| == 1
    ensures r.Some? ==> r.value == rows[0]
  {
    if |rows| == 1 then Some(rows[0]) else None
  }

  /** `.limit(1).single()`: the first matching row, if any. */
  function First<T>(rows: seq<T>): (r: Option<T>)
    ensures r.Some? <==> rows != []
    ensures r.Some? ==> r.value == rows[0]
  {
    if rows == [] then None else Some(rows[0])
  }

  function MembershipsOf(db: LabStore, labId: string, userId: string): seq<MemberRow> {
    Filter(db.members, (m: MemberRow) => m.labId == labId && m.userId == userId)
  }

  /** `requireLabRole`: the member's role, provided the membership is
      found and, when `roles` is given, the role is one of them. */
  function RequireLabRole(db: LabStore, labId: string, userId: string, roles: Option<seq<string>>): (r: Option<string>)
    ensures var m := Single(MembershipsOf(db, labId, userId));
            && (r.None? <==> m.None? || (roles.Some? && m.value.role !in roles.value))
            && (r.Some? ==> r.value == m.value.role && m.value.labId == labId && m.value.userId == userId)
            && (r.Some? ==> m.value in db.members)
  {
    var ms := MembershipsOf(db, labId, userId);
    var m := Single(ms);
    assert m.Some? ==> m.value in ms;
    if m.None? then None
    else if roles.Some? && m.value.role !in roles.value then None
    else Some(m.value.role)
  }

  /** A role filter can only narrow: a role returned with a filter is
      also returned without one, and is one of the roles asked for. */
  lemma RoleFilterNarrows(db: LabStore, labId: string, userId: string, roles: seq<string>)
    ensures var r := RequireLabRole(db, labId, userId, Some(roles));
            r.Some? ==> r == RequireLabRole(db, labId, userId, None) && r.value in roles
  {
  }

  /** What `getUserLab` returns. */
  datatype UserLab = UserLab(labId: string, labName: string, role: string)

  /** `getUserLab`: the user's first membership, with the lab's name, or
      `""` when the lab row is missing. */
  function GetUserLab(db: LabStore, userId: string): (r: Option<UserLab>)
    ensures r.None? <==> forall i :: 0 <= i < |db.members| ==> db.members[i].userId != userId
    ensures r.Some? ==> exists i :: (0 <= i < |db.members| && db.members[i].userId == userId
              && (forall j :: 0 <= j < i ==> db.members[j].userId != userId)
              && r.value.labId == db.members[i].labId && r.value.role == db.members[i].role)
    ensures r.Some? ==>
              var lab := Single(Filter(db.labs, (l: LabRow) => l.id == r.value.labId));
              r.value.labName == if lab.Some? then lab.value.name else ""
  {
    var mine := Filter(db.members, (m: MemberRow) => m.userId == userId);
    FilterHead(db.members, (m: MemberRow) => m.userId == userId);
    var membership := First(mine);
    if membership.None? then None
    else
      var lab := Single(Filter(db.labs, (l: LabRow) => l.id == membership.value.labId));
      Some(UserLab(membership.value.labId, if lab.Some? then lab.value.name else "", membership.value.role))
  }

  /** One entry of `loadLabCollections`. */
  datatype SharedCollection = SharedCollection(id: string, name: string, userId: string, pinned: bool)

  /** The lab's shared rows, in store order. */
  function SharedOf(db: LabStore, labId: string): seq<LabCollectionRow> {
    Filter(db.labCollections, (s: LabCollectionRow) => s.labId == labId)
  }

  /** The detail rows read with `.in("id", ids)`, by id; a later row with
      the same id replaces an earlier one, as `new Map` does. */
  function DetailMap(rows: seq<CollectionRow>, ids: set<string>): (m: map<string, CollectionRow>)
    ensures forall id :: id in m ==> id in ids && m[id].id == id && m[id] in rows
    ensures forall c :: c in rows && c.id in ids ==> c.id in m
  {
    if rows == [] then map[]
    else
      var last := rows[|rows| - 1];
      var m := DetailMap(rows[..|rows| - 1], ids);
      assert forall c :: c in rows[..|rows| - 1] ==> c in rows;
      if last.id in ids then m[last.id := last] else m
  }

  /** The entry for one shared row, when its collection was found. */
  function Attach(details: map<string, CollectionRow>): LabCollectionRow -> Option<SharedCollection> {
    (s: LabCollectionRow) =>
      if s.collectionId in details then
        var c := details[s.collectionId];
        Some(SharedCollection(c.id, c.name, c.userId, s.pinned.GetOr(false)))
      else None
  }

  /** `loadLabCollections`: the lab's shared rows, in order, each with its
      collection's details, dropping rows whose collection is missing; an
      unset pin reads as false. */
  function LoadLabCollections(db: LabStore, labId: string): (r: seq<SharedCollection>)
    ensures SharedOf(db, labId) == [] ==> r == []
    ensures |r| <= |SharedOf(db, labId)|
  {
    var shared := SharedOf(db, labId);
    if |shared| == 0 then []
    else
      var ids := set s | s in shared :: s.collectionId;
      FilterMap(shared, Attach(DetailMap(db.collections, ids)))
  }

  /** Each entry comes from a shared row of the lab whose collection
      exists, and carries that collection's id, name and owner and the
      row's pin. */
  lemma LabCollectionsSound(db: LabStore, labId: string)
    ensures forall e :: e in LoadLabCollections(db, labId) ==>
              exists s, c :: s in SharedOf(db, labId) && c in db.collections && c.id == s.collectionId
                && e == SharedCollection(c.id, c.name, c.userId, s.pinned.GetOr(false))
  {
    var shared := SharedOf(db, labId);
    if |shared| > 0 {
      var ids := set s | s in shared :: s.collectionId;
      var details := DetailMap(db.collections, ids);
      var f := Attach(details);
      FilterMapFrom(shared, f);
      forall e | e in FilterMap(shared, f)
        ensures exists s, c :: s in shared && c in db.collections && c.id == s.collectionId
                  && e == SharedCollection(c.id, c.name, c.userId, s.pinned.GetOr(false))
      {
        var i :| 0 <= i < |shared| && f(shared[i]) == Some(e);
        var c := details[shared[i].collectionId];
        assert e == SharedCollection(c.id, c.name, c.userId, shared[i].pinned.GetOr(false));
      }
    }
  }

  /** Every shared row of the lab whose collection exists gives an entry
      with the row's collection id and pin. */
  lemma LabCollectionsComplete(db: LabStore, labId: string)
    ensures forall s :: s in SharedOf(db, labId) && (exists c :: c in db.collections && c.id == s.collectionId) ==>
              exists e :: e in LoadLabCollections(db, labId) && e.id == s.collectionId
                && e.pinned == s.pinned.GetOr(false)
  {
    var shared := SharedOf(db, labId);
    if |shared| > 0 {
      var ids := set s | s in shared :: s.collectionId;
      var details := DetailMap(db.collections, ids);
      var f := Attach(details);
      FilterMapKeeps(shared, f);
      forall s | s in shared && (exists c :: c in db.collections && c.id == s.collectionId)
        ensures exists e: SharedCollection :: e in FilterMap(shared, f) && e.id == s.collectionId && e.pinned == s.pinned.GetOr(false)
      {
        var c :| c in db.collections && c.id == s.collectionId;
        assert s.collectionId in ids;
        var i :| 0 <= i < |shared| && shared[i] == s;
        assert f(shared[i]).value in FilterMap(shared, f);
      }
    }
  }

  /** A collection row with this id exists. */
  predicate CollectionExists(db: LabStore, id: string) {
    exists c :: c in db.collections && c.id == id
  }

  /** The entries keep the order and the multiplicity of the shared rows:
      `idx` lists, increasing, exactly the positions of the lab's shared
      rows whose collection exists, and entry `k` is the collection of row
      `idx[k]` with that row's pin. */
  lemma LabCollectionsInOrder(db: LabStore, labId: string) returns (idx: seq<nat>)
    ensures var r, shared := LoadLabCollections(db, labId), SharedOf(db, labId);
            && |idx| == |r| && Increasing(idx)
            && (forall k :: 0 <= k < |idx| ==> idx[k] < |shared| && CollectionExists(db, shared[idx[k]].collectionId))
            && (forall k :: 0 <= k < |idx| ==>
                  r[k].id == shared[idx[k]].collectionId && r[k].pinned == shared[idx[k]].pinned.GetOr(false))
            && (forall m :: 0 <= m < |shared| && CollectionExists(db, shared[m].collectionId) ==> m in idx)
  {
    var shared := SharedOf(db, labId);
    if |shared| == 0 {
      return [];
    }
    var ids := set s | s in shared :: s.collectionId;
    var details := DetailMap(db.collections, ids);
    var f := Attach(details);
    idx := FilterMapIndices(shared, f);
    var r := FilterMap(shared, f);
    forall m | 0 <= m < |shared| && CollectionExists(db, shared[m].collectionId)
      ensures f(shared[m]).Some?
    {
      var c :| c in db.collections && c.id == shared[m].collectionId;
      assert shared[m] in shared;
    }
    forall k | 0 <= k < |idx|
      ensures CollectionExists(db, shared[idx[k]].collectionId)
    {
      var c := details[shared[idx[k]].collectionId];
    }
  }

  /** The roles an invitation may grant. */
  datatype InviteRole = Member | Admin {
    function Name(): string {
      match this
      case Member => "member"
      case Admin => "admin"
    }
  }

  /** `validateInviteRole`: `"member"` and `"admin"` are accepted, anything
      else, `"owner"` included, is refused. */
  function ValidateInviteRole(role: string): (r: Option<InviteRole>)
    ensures r.Some? <==> role == "member" || role == "admin"
    ensures r.Some? ==> r.value.Name() == role
    ensures role == "owner" ==> r.None?
  {
    if role == "member" then Some(Member)
    else if role == "admin" then Some(Admin)
    else None
  }
}
