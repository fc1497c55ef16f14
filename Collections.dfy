/** Write access to a lab's shared collections
    (`lib/supabase/collections.ts`). */
module Collections {
  import opened Text
  import opened Labs

  /** `verifyCollectionOwnership`: the shared row with this id, provided
      it belongs to this lab and is the only such row. */
  function VerifyCollectionOwnership(db: LabStore, collectionId: string, labId: string): (r: Option<LabCollectionRow>)
    ensures r.Some? ==> r.value in db.labCollections && r.value.id == collectionId && r.value.labId == labId
  {
    var rows := Filter(db.labCollections, (s: LabCollectionRow) => s.id == collectionId && s.labId == labId);
    var r := Single(rows);
    assert r.Some? ==> r.value in rows;
    r
  }

  /** A shared row of another lab is never found, whatever its id. */
  lemma OwnershipNeedsLab(db: LabStore, collectionId: string, labId: string)
    requires forall i :: 0 <= i < |db.labCollections| ==> db.labCollections[i].labId != labId
    ensures VerifyCollectionOwnership(db, collectionId, labId).None?
  {
    var rows := Filter(db.labCollections, (s: LabCollectionRow) => s.id == collectionId && s.labId == labId);
    FilterHead(db.labCollections, (s: LabCollectionRow) => s.id == collectionId && s.labId == labId);
    assert rows == [];
  }

  /** `.maybeSingle()` on the contributor rows: present when exactly one
      row matches; none, or an error for several, reads as absent. */
  predicate IsContributor(db: LabStore, collectionId: string, userId: string) {
    |Filter(db.contributors, (c: ContributorRow) => c.labCollectionId == collectionId && c.userId == userId)| == 1
  }

  /** `hasLabCollectionWriteAccess`. */
  function HasLabCollectionWriteAccess(db: LabStore, collectionId: string, labId: string,
                                       userId: string, userRole: string): bool {
    var collection := VerifyCollectionOwnership(db, collectionId, labId);
    if collection.None? then false
    else if userRole == "owner" || userRole == "admin" then true
    else if collection.value.createdBy == userId then true
    else IsContributor(db, collectionId, userId)
  }

  /** Write access requires the collection to belong to the lab; given
      that, it is granted exactly to owners, admins, the creator and the
      (single-row) contributors. */
  lemma WriteAccess(db: LabStore, collectionId: string, labId: string, userId: string, userRole: string)
    ensures var c := VerifyCollectionOwnership(db, collectionId, labId);
            && (c.None? ==> !HasLabCollectionWriteAccess(db, collectionId, labId, userId, userRole))
            && (c.Some? ==>
                  (HasLabCollectionWriteAccess(db, collectionId, labId, userId, userRole) <==>
                     userRole == "owner" || userRole == "admin" || c.value.createdBy == userId
                     || IsContributor(db, collectionId, userId)))
  {
  }

  /** Access granted in one lab implies the collection is shared with that
      lab. */
  lemma AccessImpliesShared(db: LabStore, collectionId: string, labId: string, userId: string, userRole: string)
    requires HasLabCollectionWriteAccess(db, collectionId, labId, userId, userRole)
    ensures exists s :: s in db.labCollections && s.id == collectionId && s.labId == labId
  {
    var c := VerifyCollectionOwnership(db, collectionId, labId);
    assert c.value in db.labCollections;
  }

  /** A contributor row is only counted when it is the only row for the
      pair: any two rows for the pair, wherever they sit among the others,
      make `.maybeSingle()` fail and access is refused. */
  lemma DuplicateContributorRefused(db: LabStore, collectionId: string, userId: string, i: nat, j: nat)
    requires i < j < |db.contributors|
    requires db.contributors[i] == ContributorRow(collectionId, userId)
    requires db.contributors[j] == ContributorRow(collectionId, userId)
    ensures !IsContributor(db, collectionId, userId)
  {
    var p := (c: ContributorRow) => c.labCollectionId == collectionId && c.userId == userId;
    FilterKeepsTwo(db.contributors, p, i, j);
  }
}
