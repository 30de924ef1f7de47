/** When two file-library snapshots count as the same source. */
module SourceFingerprint {
  import opened Common
  import opened LibraryTree
  import opened FileLibrary
  import opened LibraryPublication

  /** A snapshot document without its content id. */
  datatype DocumentView = DocumentView(id: nat, name: string, folder: Option<nat>, size: nat, sha: string)

  /** The input of the digest: no source revision, no content ids, lists ordered by id. */
  datatype Canonical = Canonical(
    lib: nat, name: string, dept: nat, station: Option<nat>, folders: seq<FolderRecord>, documents: seq<DocumentView>)

  // ---- ordering by id -----------------------------------------------------------------------------

  function Insert<T>(x: T, s: seq<T>, key: T -> nat): seq<T> {
    if s == [] then [x]
    else if key(x) < key(s[0]) then [x] + s
    else [s[0]] + Insert(x, s[1..], key)
  }

  function SortBy<T>(s: seq<T>, key: T -> nat): seq<T> {
    if s == [] then [] else Insert(s[|s| - 1], SortBy(s[..|s| - 1], key), key)
  }

  ghost predicate DistinctKeys<T>(s: seq<T>, key: T -> nat) {
    forall i, j :: 0 <= i < j < |s| ==> key(s[i]) != key(s[j])
  }

  ghost predicate Ascending<T>(s: seq<T>, key: T -> nat) {
    forall i, j :: 0 <= i < j < |s| ==> key(s[i]) < key(s[j])
  }

  ghost predicate SameElements<T(!new)>(s: seq<T>, t: seq<T>) {
    forall x :: x in s <==> x in t
  }

  lemma {:induction false} InsertSorts<T(!new)>(x: T, s: seq<T>, key: T -> nat)
    requires Ascending(s, key) && forall y :: y in s ==> key(y) != key(x)
    ensures Ascending(Insert(x, s, key), key)
    ensures forall y :: y in Insert(x, s, key) <==> y == x || y in s
  {
    if s != [] && key(x) > key(s[0]) {
      InsertSorts(x, s[1..], key);
      var t := Insert(x, s[1..], key);
      assert forall y :: y in t ==> key(s[0]) < key(y);
      assert s == [s[0]] + s[1..];
    }
  }

  lemma {:induction false} SortBySorts<T(!new)>(s: seq<T>, key: T -> nat)
    requires DistinctKeys(s, key)
    ensures Ascending(SortBy(s, key), key) && SameElements(SortBy(s, key), s)
  {
    if s != [] {
      var front, last := s[..|s| - 1], s[|s| - 1];
      SortBySorts(front, key);
      forall y | y in SortBy(front, key) ensures key(y) != key(last) {
        assert y in front;
      }
      InsertSorts(last, SortBy(front, key), key);
      assert s == front + [last];
    }
  }

  /** Ascending lists with the same elements are the same list. */
  lemma {:induction false} AscendingUnique<T(!new)>(s: seq<T>, t: seq<T>, key: T -> nat)
    requires Ascending(s, key) && Ascending(t, key) && SameElements(s, t)
    ensures s == t
    decreases |s|
  {
    if s != [] { assert s[0] in t; }
    if t != [] { assert t[0] in s; }
    if s != [] {
      assert s[0] == t[0];
      forall x ensures x in s[1..] <==> x in t[1..] {
        assert x in s <==> x == s[0] || x in s[1..];
        assert x in t <==> x == t[0] || x in t[1..];
        if x == s[0] { NotRepeated(s, key); NotRepeated(t, key); }
      }
      AscendingUnique(s[1..], t[1..], key);
      assert s == [s[0]] + s[1..] && t == [t[0]] + t[1..];
    }
  }

  lemma NotRepeated<T>(s: seq<T>, key: T -> nat)
    requires Ascending(s, key) && s != []
    ensures s[0] !in s[1..]
  {
  }

  lemma SortByCanonical<T(!new)>(s: seq<T>, t: seq<T>, key: T -> nat)
    requires DistinctKeys(s, key) && DistinctKeys(t, key)
    ensures SortBy(s, key) == SortBy(t, key) <==> SameElements(s, t)
  {
    SortBySorts(s, key);
    SortBySorts(t, key);
    if SameElements(s, t) { AscendingUnique(SortBy(s, key), SortBy(t, key), key); }
  }

  // ---- normalisation --------------------------------------------------------------------------------

  function ViewOf(d: DocumentRecord): DocumentView {
    DocumentView(d.id, d.name, d.folder, d.size, d.sha)
  }

  function Views(docs: seq<DocumentRecord>): seq<DocumentView> {
    seq(|docs|, i requires 0 <= i < |docs| => ViewOf(docs[i]))
  }

  function Normalise(s: Snapshot): Canonical {
    Canonical(s.lib, s.name, s.dept, s.station,
              SortBy(s.folders, (f: FolderRecord) => f.id),
              SortBy(Views(s.documents), (d: DocumentView) => d.id))
  }

  ghost predicate WellFormed(s: Snapshot) {
    && DistinctIds(s.documents)
    && forall i, j :: 0 <= i < j < |s.folders| ==> s.folders[i].id != s.folders[j].id
  }

  /** The two records describe one document with the same bytes; which content row holds them is left open. */
  predicate SameDocument(d: DocumentRecord, e: DocumentRecord) {
    d.id == e.id && d.name == e.name && d.folder == e.folder && d.size == e.size && d.sha == e.sha
  }

  ghost predicate CoveredBy(a: seq<DocumentRecord>, b: seq<DocumentRecord>) {
    forall i {:trigger a[i]} :: 0 <= i < |a| ==> exists j :: 0 <= j < |b| && SameDocument(a[i], b[j])
  }

  /** Library, folders and documents agree, in whatever order they are listed. */
  ghost predicate SameSource(a: Snapshot, b: Snapshot) {
    && a.lib == b.lib && a.name == b.name && a.dept == b.dept && a.station == b.station
    && (forall f :: f in a.folders <==> f in b.folders)
    && CoveredBy(a.documents, b.documents) && CoveredBy(b.documents, a.documents)
  }

  lemma CoveredIff(a: seq<DocumentRecord>, b: seq<DocumentRecord>)
    ensures CoveredBy(a, b) <==> forall v :: v in Views(a) ==> v in Views(b)
  {
    if CoveredBy(a, b) {
      forall v | v in Views(a) ensures v in Views(b) {
        var i :| 0 <= i < |a| && Views(a)[i] == v;
        var j :| 0 <= j < |b| && SameDocument(a[i], b[j]);
        assert Views(b)[j] == v;
      }
    }
    if forall v :: v in Views(a) ==> v in Views(b) {
      forall i | 0 <= i < |a| ensures exists j :: 0 <= j < |b| && SameDocument(a[i], b[j]) {
        assert Views(a)[i] in Views(a);
        var j :| 0 <= j < |b| && Views(b)[j] == Views(a)[i];
        assert SameDocument(a[i], b[j]);
      }
    }
  }

  /**
   The digest input is canonical: equal exactly when the libraries agree, the folders do, and each document of either
   snapshot is in the other with the same name, folder, size and digest.
   */
  lemma NormaliseIsCanonical(a: Snapshot, b: Snapshot)
    requires WellFormed(a) && WellFormed(b)
    ensures Normalise(a) == Normalise(b) <==> SameSource(a, b)
  {
    var folderKey := (f: FolderRecord) => f.id;
    var documentKey := (d: DocumentView) => d.id;
    SortByCanonical(a.folders, b.folders, folderKey);
    SortByCanonical(Views(a.documents), Views(b.documents), documentKey);
    CoveredIff(a.documents, b.documents);
    CoveredIff(b.documents, a.documents);
  }

  // ---- what makes a scope look changed --------------------------------------------------------------

  predicate Holds(s: Store, lib: nat, x: nat) {
    x in s.entries && s.entries[x].lib == lib
  }

  /**
   In both stores the library holds the entry or does not; if it does, name, parent and kind are the same, and for a
   document so are the size and the digest of its content.
   */
  ghost predicate EntryAlike(s: Store, s': Store, lib: nat, x: nat) {
    && (Holds(s, lib, x) <==> Holds(s', lib, x))
    && (Holds(s, lib, x) && Holds(s', lib, x) ==>
          var e, e' := s.entries[x], s'.entries[x];
          && e.name == e'.name && e.parent == e'.parent && (e.content.None? <==> e'.content.None?)
          && (e.content.Some? && e'.content.Some? ==>
                && e.content.value in s.contents && e'.content.value in s'.contents
                && s.contents[e.content.value].size == s'.contents[e'.content.value].size
                && s.contents[e.content.value].sha == s'.contents[e'.content.value].sha))
  }

  /** The library as a tablet sees it: every entry's place, name and bytes. */
  ghost predicate LooksAlike(s: Store, s': Store, lib: nat)
    requires lib in s.libs && lib in s'.libs
  {
    var a, b := s.libs[lib], s'.libs[lib];
    && a.name == b.name && a.dept == b.dept && a.station == b.station
    && forall x {:trigger EntryAlike(s, s', lib, x)} :: EntryAlike(s, s', lib, x)
  }

  lemma AlikeIff(s: Store, s': Store, lib: nat)
    requires ReferencesOk(s) && ReferencesOk(s')
    ensures (forall x {:trigger EntryAlike(s, s', lib, x)} :: EntryAlike(s, s', lib, x)) <==>
            && FoldersAlike(s.entries, s'.entries, FolderIds(s, lib), FolderIds(s', lib))
            && DocumentsAlike(s, s', DocumentIds(s, lib), DocumentIds(s', lib))
  {
    var folders, folders' := FolderIds(s, lib), FolderIds(s', lib);
    var docs, docs' := DocumentIds(s, lib), DocumentIds(s', lib);
    if forall x {:trigger EntryAlike(s, s', lib, x)} :: EntryAlike(s, s', lib, x) {
      forall x ensures (x in folders <==> x in folders') && (x in docs <==> x in docs') {
        assert EntryAlike(s, s', lib, x);
      }
      forall x | x in folders
        ensures s.entries[x].name == s'.entries[x].name && s.entries[x].parent == s'.entries[x].parent
      {
        assert EntryAlike(s, s', lib, x);
      }
      forall x | x in docs
        ensures IsDocument(s, x) && IsDocument(s', x) && ViewOf(RecordOf(s, x)) == ViewOf(RecordOf(s', x))
      {
        assert EntryAlike(s, s', lib, x);
      }
    }
    if FoldersAlike(s.entries, s'.entries, folders, folders') && DocumentsAlike(s, s', docs, docs') {
      forall x ensures EntryAlike(s, s', lib, x) {
        assert Holds(s, lib, x) <==> x in folders || x in docs;
        assert Holds(s', lib, x) <==> x in folders' || x in docs';
      }
    }
  }

  ghost predicate FoldersAlike(es: Entries, es': Entries, ids: set<nat>, ids': set<nat>) {
    ids == ids' && forall x :: x in ids ==>
      x in es && x in es' && es[x].name == es'[x].name && es[x].parent == es'[x].parent
  }

  ghost predicate DocumentsAlike(s: Store, s': Store, ids: set<nat>, ids': set<nat>) {
    ids == ids' && forall x :: x in ids ==>
      IsDocument(s, x) && IsDocument(s', x) && ViewOf(RecordOf(s, x)) == ViewOf(RecordOf(s', x))
  }

  function FolderView(es: Entries, x: nat): FolderRecord
    requires x in es
  {
    FolderRecord(x, es[x].name, es[x].parent)
  }

  /** Equal ordered lists come from equal sets. */
  lemma OrderedInjective(a: set<nat>, b: set<nat>)
    requires Ordered(a) == Ordered(b)
    ensures a == b
  {
    forall x ensures x in a <==> x in b { assert x in Ordered(a) <==> x in Ordered(b); }
  }

  lemma FolderListsEqual(es: Entries, es': Entries, xs: seq<nat>, ys: seq<nat>)
    requires (forall x :: x in xs ==> x in es) && (forall x :: x in ys ==> x in es')
    ensures FolderRecords(es, xs) == FolderRecords(es', ys) <==>
            xs == ys && forall i :: 0 <= i < |xs| ==> FolderView(es, xs[i]) == FolderView(es', xs[i])
  {
    var a, b := FolderRecords(es, xs), FolderRecords(es', ys);
    assert forall i :: 0 <= i < |xs| ==> a[i] == FolderView(es, xs[i]);
    assert forall i :: 0 <= i < |ys| ==> b[i] == FolderView(es', ys[i]);
    if a == b {
      assert |xs| == |ys|;
      forall i | 0 <= i < |xs| ensures xs[i] == ys[i] { assert a[i].id == b[i].id; }
    }
  }

  lemma DocumentListsEqual(s: Store, s': Store, xs: seq<nat>, ys: seq<nat>)
    requires (forall x :: x in xs ==> IsDocument(s, x)) && (forall x :: x in ys ==> IsDocument(s', x))
    ensures Views(DocumentRecords(s, xs)) == Views(DocumentRecords(s', ys)) <==>
            xs == ys && forall i :: 0 <= i < |xs| ==> ViewOf(RecordOf(s, xs[i])) == ViewOf(RecordOf(s', xs[i]))
  {
    var a, b := Views(DocumentRecords(s, xs)), Views(DocumentRecords(s', ys));
    assert forall i :: 0 <= i < |xs| ==> a[i] == ViewOf(RecordOf(s, xs[i]));
    assert forall i :: 0 <= i < |ys| ==> b[i] == ViewOf(RecordOf(s', ys[i]));
    if a == b {
      assert |xs| == |ys|;
      forall i | 0 <= i < |xs| ensures xs[i] == ys[i] { assert a[i].id == b[i].id; }
    }
  }

  lemma EqualFoldersAlike(es: Entries, es': Entries, ids: set<nat>, ids': set<nat>)
    requires (forall x :: x in ids ==> x in es) && (forall x :: x in ids' ==> x in es')
    requires FolderRecords(es, Ordered(ids)) == FolderRecords(es', Ordered(ids'))
    ensures FoldersAlike(es, es', ids, ids')
  {
    var xs := Ordered(ids);
    FolderListsEqual(es, es', xs, Ordered(ids'));
    OrderedInjective(ids, ids');
    forall x | x in ids ensures FolderView(es, x) == FolderView(es', x) {
      var i :| 0 <= i < |xs| && xs[i] == x;
    }
  }

  lemma SameFolders(es: Entries, es': Entries, ids: set<nat>, ids': set<nat>)
    requires (forall x :: x in ids ==> x in es) && (forall x :: x in ids' ==> x in es')
    ensures FolderRecords(es, Ordered(ids)) == FolderRecords(es', Ordered(ids')) <==> FoldersAlike(es, es', ids, ids')
  {
    if FoldersAlike(es, es', ids, ids') {
      var xs := Ordered(ids);
      assert forall i :: 0 <= i < |xs| ==> xs[i] in ids;
      FolderListsEqual(es, es', xs, xs);
    }
    if FolderRecords(es, Ordered(ids)) == FolderRecords(es', Ordered(ids')) { EqualFoldersAlike(es, es', ids, ids'); }
  }

  lemma EqualDocumentsAlike(s: Store, s': Store, ids: set<nat>, ids': set<nat>)
    requires (forall x :: x in ids ==> IsDocument(s, x)) && (forall x :: x in ids' ==> IsDocument(s', x))
    requires Views(DocumentRecords(s, Ordered(ids))) == Views(DocumentRecords(s', Ordered(ids')))
    ensures DocumentsAlike(s, s', ids, ids')
  {
    var xs := Ordered(ids);
    DocumentListsEqual(s, s', xs, Ordered(ids'));
    OrderedInjective(ids, ids');
    forall x | x in ids ensures ViewOf(RecordOf(s, x)) == ViewOf(RecordOf(s', x)) {
      var i :| 0 <= i < |xs| && xs[i] == x;
    }
  }

  lemma SameDocuments(s: Store, s': Store, ids: set<nat>, ids': set<nat>)
    requires (forall x :: x in ids ==> IsDocument(s, x)) && (forall x :: x in ids' ==> IsDocument(s', x))
    ensures Views(DocumentRecords(s, Ordered(ids))) == Views(DocumentRecords(s', Ordered(ids')))
            <==> DocumentsAlike(s, s', ids, ids')
  {
    if DocumentsAlike(s, s', ids, ids') {
      var xs := Ordered(ids);
      assert forall i :: 0 <= i < |xs| ==> xs[i] in ids;
      DocumentListsEqual(s, s', xs, xs);
    }
    if Views(DocumentRecords(s, Ordered(ids))) == Views(DocumentRecords(s', Ordered(ids'))) {
      EqualDocumentsAlike(s, s', ids, ids');
    }
  }

  /** A snapshot of the store is already ordered, so normalising it only drops the revision and the content ids. */
  lemma SnapshotIsOrdered(s: Store, lib: nat)
    requires lib in s.libs && ReferencesOk(s)
    ensures var snap := SnapshotOf(s, lib);
            Normalise(snap).folders == snap.folders && Normalise(snap).documents == Views(snap.documents)
  {
    var snap := SnapshotOf(s, lib);
    SortedAlready(snap.folders, (f: FolderRecord) => f.id);
    SortedAlready(Views(snap.documents), (d: DocumentView) => d.id);
  }

  lemma SortedAlready<T(!new)>(s: seq<T>, key: T -> nat)
    requires Ascending(s, key)
    ensures SortBy(s, key) == s
  {
    SortBySorts(s, key);
    AscendingUnique(SortBy(s, key), s, key);
  }

  /** A scope looks changed exactly when the library looks different; revisions and content ids never matter. */
  lemma FingerprintTracksAppearance(s: Store, s': Store, lib: nat)
    requires lib in s.libs && lib in s'.libs && ReferencesOk(s) && ReferencesOk(s')
    ensures Normalise(SnapshotOf(s, lib)) == Normalise(SnapshotOf(s', lib)) <==> LooksAlike(s, s', lib)
  {
    SnapshotIsOrdered(s, lib);
    SnapshotIsOrdered(s', lib);
    SameFolders(s.entries, s'.entries, FolderIds(s, lib), FolderIds(s', lib));
    SameDocuments(s, s', DocumentIds(s, lib), DocumentIds(s', lib));
    AlikeIff(s, s', lib);
  }

  lemma ReplaceOutcome(s: Store, cfg: Settings, lib: nat, id: nat, content: nat, size: nat, sha: string, now: int)
    requires Replace(s, cfg, lib, id, content, size, sha, now).Ok?
    ensures var s' := Replace(s, cfg, lib, id, content, size, sha, now).value;
            && lib in s.libs && s'.libs.Keys == s.libs.Keys && s'.frozen == s.frozen && s'.pins == s.pins
            && s'.libs[lib].name == s.libs[lib].name && s'.libs[lib].dept == s.libs[lib].dept
            && s'.libs[lib].station == s.libs[lib].station
            && id in s.entries && s.entries[id].lib == lib && s.entries[id].content.Some?
            && s'.entries == s.entries[id := s.entries[id].(content := Some(content))]
            && s'.contents == s.contents[content := Content(lib, size, sha)]
  {
  }

  lemma ReplacedLooks(s: Store, s': Store, lib: nat, id: nat, content: nat, size: nat, sha: string)
    requires ReferencesOk(s) && lib in s.libs && IsDocument(s, id) && content !in s.contents && s.entries[id].lib == lib
    requires s'.entries == s.entries[id := s.entries[id].(content := Some(content))]
    requires s'.contents == s.contents[content := Content(lib, size, sha)]
    requires s'.libs.Keys == s.libs.Keys && s'.libs[lib].name == s.libs[lib].name
    requires s'.libs[lib].dept == s.libs[lib].dept && s'.libs[lib].station == s.libs[lib].station
    ensures var before := s.contents[s.entries[id].content.value];
            LooksAlike(s, s', lib) <==> size == before.size && sha == before.sha
  {
    forall x | x != id ensures EntryAlike(s, s', lib, x) { }
    var before := s.contents[s.entries[id].content.value];
    assert EntryAlike(s, s', lib, id) <==> size == before.size && sha == before.sha;
  }

  /**
   What a replacement does to the digest input: nothing if the bytes have the old size and digest, and otherwise it
   always changes it.
   */
  lemma ReplacementSeenIff(
      s: Store, cfg: Settings, lib: nat, id: nat, content: nat, size: nat, sha: string, now: int)
    requires ReferencesOk(s) && lib in s.libs && IsDocument(s, id) && content !in s.contents
    requires Replace(s, cfg, lib, id, content, size, sha, now).Ok?
    ensures var s' := Replace(s, cfg, lib, id, content, size, sha, now).value;
            var before := s.contents[s.entries[id].content.value];
            && ReferencesOk(s') && lib in s'.libs
            && (Normalise(SnapshotOf(s', lib)) == Normalise(SnapshotOf(s, lib)) <==>
                size == before.size && sha == before.sha)
  {
    var s' := Replace(s, cfg, lib, id, content, size, sha, now).value;
    ReplaceOutcome(s, cfg, lib, id, content, size, sha, now);
    assert ReferencesOk(s') by { ReplacedReferences(s, s', lib, id, content, size, sha); }
    ReplacedLooks(s, s', lib, id, content, size, sha);
    FingerprintTracksAppearance(s, s', lib);
  }

  lemma ReplacedReferences(s: Store, s': Store, lib: nat, id: nat, content: nat, size: nat, sha: string)
    requires ReferencesOk(s) && IsDocument(s, id) && content !in s.contents && s.entries[id].lib == lib && lib in s.libs
    requires s'.entries == s.entries[id := s.entries[id].(content := Some(content))]
    requires s'.contents == s.contents[content := Content(lib, size, sha)]
    requires s'.libs.Keys == s.libs.Keys && s'.frozen == s.frozen && s'.pins == s.pins
    ensures ReferencesOk(s')
  {
  }

  /** What a committed edit leaves alone. */
  lemma EditOutcome(s: Store, cfg: Settings, lib: nat, id: nat, raw: Option<string>, target: Option<nat>)
    requires Edit(s, cfg, lib, id, raw, true, target).Ok?
    ensures var t := Edit(s, cfg, lib, id, raw, true, target).value;
            && id in s.entries && lib in s.libs && lib in t.libs
            && t.contents == s.contents && t.frozen == s.frozen && t.pins == s.pins && t.libs.Keys == s.libs.Keys
            && t.libs[lib].(revision := s.libs[lib].revision) == s.libs[lib]
            && id in t.entries && t.entries == s.entries[id := t.entries[id]]
            && t.entries[id] == s.entries[id].(name := t.entries[id].name, parent := target)
            && (raw.Some? ==> t.entries[id].name == Strip(raw.value))
  {
  }

  /** An edit followed by its reverse restores the fingerprint, although the revision may have moved on by two. */
  lemma RevertedEditIsInvisible(s: Store, cfg: Settings, lib: nat, id: nat, raw: Option<string>, target: Option<nat>)
    requires Valid(s, cfg) && id in s.entries
    requires Edit(s, cfg, lib, id, raw, true, target).Ok?
    requires Edit(Edit(s, cfg, lib, id, raw, true, target).value, cfg, lib, id,
                  Some(s.entries[id].name), true, s.entries[id].parent).Ok?
    ensures var s' := Edit(Edit(s, cfg, lib, id, raw, true, target).value, cfg, lib, id,
                           Some(s.entries[id].name), true, s.entries[id].parent).value;
            lib in s.libs && lib in s'.libs && ReferencesOk(s')
            && Normalise(SnapshotOf(s', lib)) == Normalise(SnapshotOf(s, lib))
  {
    var t := Edit(s, cfg, lib, id, raw, true, target).value;
    EditOutcome(s, cfg, lib, id, raw, target);
    var s' := Edit(t, cfg, lib, id, Some(s.entries[id].name), true, s.entries[id].parent).value;
    EditOutcome(t, cfg, lib, id, Some(s.entries[id].name), s.entries[id].parent);
    assert Trimmed(s.entries[id].name);
    StripTrims(s.entries[id].name);
    assert s'.entries == s.entries;
    SameEntriesLookAlike(s, s', lib);
  }

  lemma SameEntriesLookAlike(s: Store, s': Store, lib: nat)
    requires lib in s.libs && ReferencesOk(s) && s'.libs.Keys == s.libs.Keys
    requires s'.entries == s.entries && s'.contents == s.contents && s'.frozen == s.frozen && s'.pins == s.pins
    requires s'.libs[lib].(revision := s.libs[lib].revision) == s.libs[lib]
    ensures ReferencesOk(s') && Normalise(SnapshotOf(s', lib)) == Normalise(SnapshotOf(s, lib))
  {
    forall x ensures EntryAlike(s, s', lib, x) { }
    FingerprintTracksAppearance(s, s', lib);
  }

  // ---- publications -------------------------------------------------------------------------------

  datatype Publication = Publication(fileDataset: bool, snapshot: Option<Snapshot>, stored: string)

  /**
   `publication_source_fingerprint`: a retained file snapshot is re-digested, anything else keeps its stored value.
   */
  function PublicationFingerprint(p: Publication, digest: Canonical -> string): string {
    if p.fileDataset && p.snapshot.Some? then digest(Normalise(p.snapshot.value)) else p.stored
  }

  ghost predicate Injective(digest: Canonical -> string) {
    forall a, b :: digest(a) == digest(b) ==> a == b
  }

  /** A scope counts as current exactly when the library looks as it did when the publication was frozen. */
  lemma CurrentExactlyWhenAlike(s: Store, s': Store, lib: nat, stored: string, digest: Canonical -> string)
    requires lib in s.libs && lib in s'.libs && ReferencesOk(s) && ReferencesOk(s') && Injective(digest)
    ensures var published := Publication(true, Some(SnapshotOf(s, lib)), stored);
            PublicationFingerprint(published, digest) == digest(Normalise(SnapshotOf(s', lib))) <==>
                LooksAlike(s, s', lib)
  {
    FingerprintTracksAppearance(s, s', lib);
  }
}
