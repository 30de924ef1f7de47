/** Freezing a library for a publication: the source snapshot, its content pins, and reading it back. */
module LibraryPublication {
  import opened Common
  import opened LibraryTree
  import opened FileLibrary

  /** What a document generation is built from: the snapshot entry without its content id, and the accepted file. */
  datatype FrozenDocument =
    FrozenDocument(id: nat, sha: string, name: string, folder: Option<nat>, size: nat, key: StorageKey)

  datatype BuildError = SourceUnavailable | MembershipIncomplete | ContentInvalid

  // ---- the snapshot -------------------------------------------------------------------------------

  function FolderRecords(es: Entries, ids: seq<nat>): seq<FolderRecord>
    requires forall x :: x in ids ==> x in es
  {
    seq(|ids|, i requires 0 <= i < |ids| => FolderRecord(ids[i], es[ids[i]].name, es[ids[i]].parent))
  }

  predicate IsDocument(s: Store, x: nat) {
    x in s.entries && s.entries[x].content.Some? && s.entries[x].content.value in s.contents
  }

  function RecordOf(s: Store, x: nat): DocumentRecord
    requires IsDocument(s, x)
  {
    var e := s.entries[x];
    var c := s.contents[e.content.value];
    DocumentRecord(x, e.name, e.parent, c.size, c.sha, e.content.value)
  }

  function DocumentRecords(s: Store, ids: seq<nat>): seq<DocumentRecord>
    requires forall x :: x in ids ==> IsDocument(s, x)
  {
    seq(|ids|, i requires 0 <= i < |ids| => RecordOf(s, ids[i]))
  }

  function FolderIds(s: Store, lib: nat): set<nat> {
    set x | x in s.entries && s.entries[x].lib == lib && s.entries[x].IsFolder()
  }

  function DocumentIds(s: Store, lib: nat): set<nat> {
    set x | x in s.entries && s.entries[x].lib == lib && !s.entries[x].IsFolder()
  }

  /** `snapshot_for_library`: the whole source, ordered by id. */
  function SnapshotOf(s: Store, lib: nat): Snapshot
    requires lib in s.libs && ReferencesOk(s)
  {
    var row := s.libs[lib];
    Snapshot(lib, row.name, row.dept, row.station, row.revision,
             FolderRecords(s.entries, Ordered(FolderIds(s, lib))),
             DocumentRecords(s, Ordered(DocumentIds(s, lib))))
  }

  ghost predicate DistinctIds(docs: seq<DocumentRecord>) {
    forall i, j :: 0 <= i < j < |docs| ==> docs[i].id != docs[j].id
  }

  // ---- pins -----------------------------------------------------------------------------------------

  /** One pin per snapshot document, in list order. */
  function PinsOf(pub: nat, docs: seq<DocumentRecord>): map<(nat, nat), nat> {
    if docs == [] then map[]
    else PinsOf(pub, docs[..|docs| - 1])[(pub, docs[|docs| - 1].id) := docs[|docs| - 1].content]
  }

  lemma {:induction false} PinsOfContents(pub: nat, docs: seq<DocumentRecord>)
    requires DistinctIds(docs)
    ensures forall k :: k in PinsOf(pub, docs) ==>
              k.0 == pub && exists i :: 0 <= i < |docs| && docs[i].id == k.1 && docs[i].content == PinsOf(pub, docs)[k]
    ensures forall i :: 0 <= i < |docs| ==>
              (pub, docs[i].id) in PinsOf(pub, docs) && PinsOf(pub, docs)[(pub, docs[i].id)] == docs[i].content
  {
    if docs != [] {
      var front := docs[..|docs| - 1];
      PinsOfContents(pub, front);
      assert forall i :: 0 <= i < |front| ==> front[i] == docs[i];
      assert docs[|docs| - 1].id == docs[|docs| - 1].id;
    }
  }

  predicate HasContent(s: Store, lib: nat, d: DocumentRecord) {
    d.content in s.contents && s.contents[d.content].lib == lib
  }

  /** `pin_source` on a given snapshot. */
  function PinSnapshot(s: Store, pub: nat, snap: Snapshot): Result<Store, BuildError> {
    if exists d :: d in snap.documents && !HasContent(s, snap.lib, d) then Err(SourceUnavailable)
    else Ok(s.(frozen := s.frozen[pub := snap], pins := s.pins + PinsOf(pub, snap.documents)))
  }

  /** `pin_source` on the snapshot taken in the same locked step. */
  function Pin(s: Store, pub: nat, lib: nat): Store
    requires ReferencesOk(s)
  {
    if lib !in s.libs || pub in s.frozen then s
    else
      var snap := SnapshotOf(s, lib);
      s.(frozen := s.frozen[pub := snap], pins := s.pins + PinsOf(pub, snap.documents))
  }

  /** The terminal release of a publication drops its pins. */
  function Release(s: Store, pub: nat): Store {
    s.(frozen := s.frozen - {pub}, pins := map k | k in s.pins && k.0 != pub :: s.pins[k])
  }

  // ---- reading a frozen source back -----------------------------------------------------------------

  function PinnedIds(s: Store, pub: nat): set<nat> {
    set k | k in s.pins && k.0 == pub :: k.1
  }

  function IdsOf(docs: seq<DocumentRecord>): set<nat> {
    set i | 0 <= i < |docs| :: docs[i].id
  }

  predicate Matches(s: Store, pub: nat, lib: nat, d: DocumentRecord) {
    && (pub, d.id) in s.pins
    && s.pins[(pub, d.id)] == d.content
    && d.content in s.contents
    && s.contents[d.content] == Content(lib, d.size, d.sha)
  }

  function Thaw(lib: nat, d: DocumentRecord): FrozenDocument {
    FrozenDocument(d.id, d.sha, d.name, d.folder, d.size, StorageKey(lib, d.content))
  }

  function Expected(snap: Snapshot): seq<FrozenDocument> {
    seq(|snap.documents|, i requires 0 <= i < |snap.documents| => Thaw(snap.lib, snap.documents[i]))
  }

  /** `FileLibraryAdapter.frozen_documents`. */
  function FrozenDocuments(s: Store, pub: nat): Result<seq<FrozenDocument>, BuildError> {
    if pub !in s.frozen then Err(SourceUnavailable)
    else
      var snap := s.frozen[pub];
      if PinnedIds(s, pub) != IdsOf(snap.documents) || |PinnedIds(s, pub)| != |snap.documents|
          then Err(MembershipIncomplete)
      else if exists d :: d in snap.documents && !Matches(s, pub, snap.lib, d) then Err(ContentInvalid)
      else Ok(Expected(snap))
  }

  /** Reading succeeds only on a snapshot with pairwise distinct document identities. */
  lemma ThawedAreDistinct(s: Store, pub: nat)
    requires FrozenDocuments(s, pub).Ok?
    ensures var docs := FrozenDocuments(s, pub).value;
            forall i, j :: 0 <= i < j < |docs| ==> docs[i].id != docs[j].id
  {
    var docs := s.frozen[pub].documents;
    if i, j :| 0 <= i < j < |docs| && docs[i].id == docs[j].id {
      FewerIds(docs, j);
      assert false;
    }
  }

  lemma FewerIds(docs: seq<DocumentRecord>, j: nat)
    requires j < |docs| && exists i :: 0 <= i < j && docs[i].id == docs[j].id
    ensures |IdsOf(docs)| < |docs|
  {
    var i :| 0 <= i < j && docs[i].id == docs[j].id;
    var rest := docs[..j] + docs[j + 1..];
    forall k | 0 <= k < |docs| ensures docs[k].id in IdsOf(rest) {
      if k < j { assert rest[k] == docs[k]; }
      else if k > j { assert rest[k - 1] == docs[k]; }
      else { assert rest[i] == docs[i]; }
    }
    assert IdsOf(docs) <= IdsOf(rest);
    SubsetSize(IdsOf(docs), IdsOf(rest));
    IdsAtMost(rest);
  }

  lemma {:induction false} SubsetSize(a: set<nat>, b: set<nat>)
    requires a <= b
    ensures |a| <= |b|
    decreases |a|
  {
    if a != {} {
      var x :| x in a;
      SubsetSize(a - {x}, b - {x});
    }
  }

  lemma {:induction false} IdsAtMost(docs: seq<DocumentRecord>)
    ensures |IdsOf(docs)| <= |docs|
  {
    if docs != [] {
      IdsAtMost(docs[..|docs| - 1]);
      assert IdsOf(docs) <= IdsOf(docs[..|docs| - 1]) + {docs[|docs| - 1].id};
      SubsetSize(IdsOf(docs), IdsOf(docs[..|docs| - 1]) + {docs[|docs| - 1].id});
    }
  }

  lemma {:induction false} DistinctCount(docs: seq<DocumentRecord>)
    requires DistinctIds(docs)
    ensures |IdsOf(docs)| == |docs|
  {
    if docs != [] {
      var front := docs[..|docs| - 1];
      DistinctCount(front);
      assert IdsOf(docs) == IdsOf(front) + {docs[|docs| - 1].id};
    }
  }

  lemma SnapshotFacts(s: Store, lib: nat)
    requires lib in s.libs && ReferencesOk(s)
    ensures var snap := SnapshotOf(s, lib);
            DistinctIds(snap.documents)
            && forall i :: 0 <= i < |snap.documents| ==>
                 var d := snap.documents[i];
                 d.content in s.contents && s.contents[d.content] == Content(lib, d.size, d.sha)
  {
    var ids := Ordered(DocumentIds(s, lib));
    assert forall i :: 0 <= i < |ids| ==> ids[i] in DocumentIds(s, lib);
  }

  /** The snapshot of the current source always finds its content rows. */
  lemma CurrentSnapshotPins(s: Store, pub: nat, lib: nat)
    requires ReferencesOk(s) && lib in s.libs && pub !in s.frozen
    ensures PinSnapshot(s, pub, SnapshotOf(s, lib)) == Ok(Pin(s, pub, lib))
  {
    SnapshotFacts(s, lib);
  }

  // ---- a held source -------------------------------------------------------------------------------

  /** Everything the later reading of `pub` depends on. */
  ghost predicate Held(s: Store, pub: nat, snap: Snapshot) {
    && pub in s.frozen && s.frozen[pub] == snap
    && DistinctIds(snap.documents)
    && PinnedIds(s, pub) == IdsOf(snap.documents)
    && forall i :: 0 <= i < |snap.documents| ==> Matches(s, pub, snap.lib, snap.documents[i])
  }

  lemma HeldReads(s: Store, pub: nat, snap: Snapshot)
    requires Held(s, pub, snap) && StorageOk(s)
    ensures FrozenDocuments(s, pub) == Ok(Expected(snap))
    ensures forall d :: d in Expected(snap) ==> d.key in s.files
  {
    DistinctCount(snap.documents);
  }

  /** After adding the pins of a snapshot, the publication's pins are exactly those. */
  lemma AddedPins(s: Store, pub: nat, docs: seq<DocumentRecord>)
    requires DistinctIds(docs) && forall x :: (pub, x) !in s.pins
    ensures var s' := s.(pins := s.pins + PinsOf(pub, docs)); PinnedIds(s', pub) == IdsOf(docs)
  {
    var s' := s.(pins := s.pins + PinsOf(pub, docs));
    PinsOfContents(pub, docs);
    forall x | x in IdsOf(docs) ensures x in PinnedIds(s', pub) {
      assert (pub, x) in s'.pins;
    }
    forall x | x in PinnedIds(s', pub) ensures x in IdsOf(docs) {
      assert (pub, x) in PinsOf(pub, docs);
    }
  }

  lemma PinHolds(s: Store, pub: nat, lib: nat)
    requires ReferencesOk(s) && lib in s.libs && pub !in s.frozen
    ensures Held(Pin(s, pub, lib), pub, SnapshotOf(s, lib))
  {
    var snap := SnapshotOf(s, lib);
    var s' := Pin(s, pub, lib);
    SnapshotFacts(s, lib);
    assert forall x :: (pub, x) !in s.pins;
    AddedPins(s, pub, snap.documents);
    assert PinnedIds(s', pub) == IdsOf(snap.documents);
    forall i | 0 <= i < |snap.documents| ensures Matches(s', pub, lib, snap.documents[i]) {
      PinsOfContents(pub, snap.documents);
    }
  }

  lemma PinKeepsReferences(s: Store, pub: nat, lib: nat)
    requires ReferencesOk(s)
    ensures ReferencesOk(Pin(s, pub, lib))
  {
    if lib in s.libs && pub !in s.frozen {
      SnapshotFacts(s, lib);
      PinsOfContents(pub, SnapshotOf(s, lib).documents);
    }
  }

  /** A step that keeps this publication's pins and the pinned content rows keeps the source held. */
  lemma HeldFrame(s: Store, s': Store, pub: nat, snap: Snapshot)
    requires Held(s, pub, snap)
    requires pub in s'.frozen && s'.frozen[pub] == snap
    requires forall x :: (pub, x) in s'.pins <==> (pub, x) in s.pins
    requires forall x :: (pub, x) in s.pins ==>
               var c := s.pins[(pub, x)];
               s'.pins[(pub, x)] == c && (c in s.contents ==> c in s'.contents && s'.contents[c] == s.contents[c])
    ensures Held(s', pub, snap)
  {
    forall x ensures x in PinnedIds(s', pub) <==> x in PinnedIds(s, pub) {
      assert (pub, x) in s'.pins <==> (pub, x) in s.pins;
    }
    assert PinnedIds(s', pub) == PinnedIds(s, pub);
    forall i | 0 <= i < |snap.documents| ensures Matches(s', pub, snap.lib, snap.documents[i]) {
      assert Matches(s, pub, snap.lib, snap.documents[i]);
    }
  }
}
