/** Freezing the documents of a fire-plan or KLGV-plan publication from its snapshot. */
module DocumentSources {
  import opened Common
  import opened DocumentGeneration

  /**
   A snapshot entry. `id` is nothing unless the identity is the canonical text of a UUID; `fieldsOk` tells whether the
   entry has exactly the dataset's fields, with texts where texts belong.
   */
  datatype SnapshotEntry = SnapshotEntry(
    id: Option<nat>, sha: string, fieldsOk: bool, pages: int, longitude: Option<real>, latitude: Option<real>,
    metadata: string)

  /** An accepted plan of the department: its content digest and the key of its PDF. */
  datatype AcceptedPlan = AcceptedPlan(sha: string, key: string)

  datatype SourceError = SourceInvalid | IdentityInvalid | HashMismatch | MetadataInvalid

  predicate Bounded(value: Option<real>, bound: real) {
    value.Some? ==> -bound <= value.value <= bound
  }

  /** The extra checks on fire plans: pages, and coordinates in range and given together. */
  predicate FirePlanOk(e: SnapshotEntry) {
    e.pages > 0 && Bounded(e.longitude, 180.0) && Bounded(e.latitude, 90.0) && (e.longitude.None? <==> e.latitude.None?)
  }

  predicate MetadataOk(firePlans: bool, e: SnapshotEntry) {
    e.fieldsOk && (firePlans ==> FirePlanOk(e))
  }

  function Identities(entries: seq<SnapshotEntry>): set<Option<nat>> {
    set i | 0 <= i < |entries| :: entries[i].id
  }

  predicate SourceMatches(plans: map<nat, AcceptedPlan>, e: SnapshotEntry) {
    e.id.Some? && e.id.value in plans && plans[e.id.value].sha == e.sha
  }

  /** `DocumentDatasetAdapter.frozen_documents`; without `resolve` the accepted sources are not consulted. */
  function FrozenDocuments(
      entries: seq<SnapshotEntry>, plans: map<nat, AcceptedPlan>, firePlans: bool,
      resolve: bool): Result<seq<Frozen>, SourceError> {
    if (exists e :: e in entries && !IsHex64(e.sha)) || |Identities(entries)| != |entries| then Err(SourceInvalid)
    else if exists e :: e in entries && e.id.None? then Err(IdentityInvalid)
    else if resolve && exists e :: e in entries && !SourceMatches(plans, e) then Err(HashMismatch)
    else if exists e :: e in entries && !MetadataOk(firePlans, e) then Err(MetadataInvalid)
    else Ok(seq(|entries|, i requires 0 <= i < |entries| =>
      var e := entries[i];
      assert e in entries;
      Frozen(e.id.value, e.sha, e.metadata, if resolve then plans[e.id.value].key else "")))
  }

  // ---- distinct identities --------------------------------------------------------------------------

  ghost predicate DistinctIds(entries: seq<SnapshotEntry>) {
    forall i, j :: 0 <= i < j < |entries| ==> entries[i].id != entries[j].id
  }

  lemma IdentitiesSnoc(entries: seq<SnapshotEntry>)
    requires entries != []
    ensures Identities(entries) == Identities(entries[..|entries| - 1]) + {entries[|entries| - 1].id}
  {
    var front := entries[..|entries| - 1];
    forall x | x in Identities(entries) ensures x in Identities(front) + {entries[|entries| - 1].id} {
      var i :| 0 <= i < |entries| && entries[i].id == x;
      if i < |front| { assert front[i].id == x; }
    }
    forall x | x in Identities(front) ensures x in Identities(entries) {
      var i :| 0 <= i < |front| && front[i].id == x;
      assert entries[i].id == x;
    }
  }

  lemma DistinctSnoc(entries: seq<SnapshotEntry>)
    requires entries != []
    ensures var n := |entries| - 1;
            DistinctIds(entries) <==> DistinctIds(entries[..n]) && entries[n].id !in Identities(entries[..n])
  {
    var n := |entries| - 1;
    var front := entries[..n];
    assert forall i :: 0 <= i < n ==> front[i] == entries[i];
    if DistinctIds(entries) {
      forall i | 0 <= i < n ensures front[i].id != entries[n].id { assert entries[i].id != entries[n].id; }
    }
    if DistinctIds(front) && entries[n].id !in Identities(front) {
      forall i, j | 0 <= i < j < |entries| ensures entries[i].id != entries[j].id {
        if j < n { assert front[i].id != front[j].id; } else { assert front[i].id in Identities(front); }
      }
    }
  }

  /** Comparing the size of the set with the length of the list is the same as comparing all pairs. */
  lemma {:induction false} SizeDecidesDistinct(entries: seq<SnapshotEntry>)
    ensures |Identities(entries)| <= |entries|
    ensures |Identities(entries)| == |entries| <==> DistinctIds(entries)
    decreases |entries|
  {
    if entries == [] {
      assert Identities(entries) == {};
    } else {
      var n := |entries| - 1;
      SizeDecidesDistinct(entries[..n]);
      IdentitiesSnoc(entries);
      DistinctSnoc(entries);
      if entries[n].id in Identities(entries[..n]) {
        assert Identities(entries) == Identities(entries[..n]);
      }
    }
  }

  /** The entry is well formed: a digest, an identity, the dataset's fields, and for a fire plan its extra ones. */
  predicate EntryFits(firePlans: bool, e: SnapshotEntry) {
    && |e.sha| == 64 && (forall c :: c in e.sha ==> '0' <= c <= '9' || 'a' <= c <= 'f')
    && e.id.Some? && e.fieldsOk
    && (firePlans ==>
          || (e.pages > 0 && e.longitude.None? && e.latitude.None?)
          || (e.pages > 0 && e.longitude.Some? && e.latitude.Some?
                && -180.0 <= e.longitude.value <= 180.0 && -90.0 <= e.latitude.value <= 90.0))
  }

  /** The accepted plan of that identity still has the entry's content. */
  predicate StillAccepted(plans: map<nat, AcceptedPlan>, e: SnapshotEntry) {
    e.id.Some? && e.id.value in plans && plans[e.id.value].sha == e.sha
  }

  /** The frozen document repeats its entry and names the accepted file, if sources were resolved. */
  predicate FrozenFrom(e: SnapshotEntry, plans: map<nat, AcceptedPlan>, resolve: bool, f: Frozen) {
    && Some(f.id) == e.id && f.sha == e.sha && f.metadata == e.metadata
    && (resolve ==> f.id in plans && f.accepted == plans[f.id].key)
    && (!resolve ==> f.accepted == "")
  }

  /**
   Freezing succeeds exactly on snapshots whose entries are all well formed, identify pairwise different documents
   and, if sources are resolved, still match them. The frozen documents are then those entries, in order and all
   different, which is what building a generation relies on; resolved ones name the accepted plan's file.
   */
  lemma FrozenAreDistinct(entries: seq<SnapshotEntry>, plans: map<nat, AcceptedPlan>, firePlans: bool, resolve: bool)
    ensures var r := FrozenDocuments(entries, plans, firePlans, resolve);
            && (r.Ok? <==>
                  && (forall i, j :: 0 <= i < j < |entries| ==> entries[i].id != entries[j].id)
                  && forall e :: e in entries ==>
                      EntryFits(firePlans, e) && (resolve ==> StillAccepted(plans, e)))
            && (r.Ok? ==>
                  && Distinct(r.value) && |r.value| == |entries|
                  && forall i :: 0 <= i < |entries| ==> FrozenFrom(entries[i], plans, resolve, r.value[i]))
  {
    SizeDecidesDistinct(entries);
    var r := FrozenDocuments(entries, plans, firePlans, resolve);
    if r.Ok? {
      forall i, j | 0 <= i < j < |entries| ensures r.value[i].id != r.value[j].id {
        assert entries[i] in entries && entries[j] in entries;
      }
      forall i | 0 <= i < |entries| ensures FrozenFrom(entries[i], plans, resolve, r.value[i]) {
        assert entries[i] in entries;
      }
    }
  }
}
