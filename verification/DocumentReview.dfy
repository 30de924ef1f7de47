/**
 From a parsed package to a batch that can be applied: staging, the baseline, the preview, and the review, while other
 requests keep editing the same documents.
 */
module DocumentReview {
  import opened Common
  import opened DocumentImport

  // ---- staging --------------------------------------------------------------------------------------

  /** The document found already holds the content of the row. */
  predicate Reused(domain: Domain, pick: Pick, docs: Docs, row: Row) {
    var current := Current(domain, pick, docs, row);
    row.action.Upsert? && current.Some? && current.value.sourceSha == row.sourceSha
  }

  /** A row of `_sanitize_pdf_preview`: reused content is not sanitised again and has no output of its own. */
  function Staged(domain: Domain, pick: Pick, docs: Docs, row: Row): Row {
    if Reused(domain, pick, docs, row)
    then
      var doc := Current(domain, pick, docs, row).value;
      row.(staging := None, sanitizedSha := doc.sha, file := File(row.file.name, doc.file.size, doc.file.pages))
    else row
  }

  function Prepared(domain: Domain, pick: Pick, docs: Docs, rows: seq<Row>): (prepared: seq<Row>)
    ensures |prepared| == |rows|
  {
    seq(|rows|, j requires 0 <= j < |rows| => Staged(domain, pick, docs, rows[j]))
  }

  /** The accepted rows of a package, each carrying a PDF with the output that sanitising it would leave. */
  ghost predicate Offered(rows: seq<Row>) {
    forall j :: 0 <= j < |rows| ==> (rows[j].staging.Some? <==> rows[j].action.Upsert?)
  }

  /** No two rows have the same staged file. */
  ghost predicate OwnOutputs(rows: seq<Row>) {
    forall i, j :: 0 <= i < j < |rows| && rows[i].staging.Some? ==> rows[i].staging != rows[j].staging
  }

  /** Rows of one identity key in a package are deactivations, of a key that no document has. */
  ghost predicate PackageApart(domain: Domain, docs: Docs, rows: seq<Row>) {
    forall i, j {:trigger rows[i], rows[j]} ::
      0 <= i < |rows| && 0 <= j < |rows| && i != j && RowKey(domain, rows[i]) == RowKey(domain, rows[j]) ==>
      rows[i].action.Deactivate? && Holders(domain, docs, RowKey(domain, rows[i])) == {}
  }

  // ---- edits by other requests ----------------------------------------------------------------------

  /** The documents of the department and the time the next save will be stamped with. */
  datatype Table = Table(docs: Docs, clock: int)

  datatype Edit = Save(id: nat, doc: Doc) | Remove(id: nat)

  function Edited(t: Table, e: Edit): Table {
    match e
    case Save(id, doc) => Table(t.docs[id := doc.(updatedAt := t.clock)], t.clock + 1)
    case Remove(id) => Table(t.docs - {id}, t.clock + 1)
  }

  function EditRun(t: Table, es: seq<Edit>): Table {
    if es == [] then t else Edited(EditRun(t, es[..|es| - 1]), es[|es| - 1])
  }

  /** Every document was stamped at a time of its own. */
  ghost predicate Stamped(t: Table) {
    && (forall x :: x in t.docs ==> t.docs[x].updatedAt < t.clock)
    && (forall x, y :: x in t.docs && y in t.docs && t.docs[x].updatedAt == t.docs[y].updatedAt ==> x == y)
  }

  /** `later` came from `t` by saves and removals: what it holds from before that time, `t` held just so. */
  ghost predicate Since(t: Table, later: Table) {
    && t.clock <= later.clock
    && forall x :: x in later.docs && later.docs[x].updatedAt < t.clock ==> x in t.docs && t.docs[x] == later.docs[x]
  }

  lemma {:induction false} EditRunSince(t: Table, es: seq<Edit>)
    requires Stamped(t)
    ensures Stamped(EditRun(t, es)) && Since(t, EditRun(t, es))
  {
    if es != [] {
      EditRunSince(t, es[..|es| - 1]);
      EditSince(EditRun(t, es[..|es| - 1]), es[|es| - 1]);
      SinceTransitive(t, EditRun(t, es[..|es| - 1]), EditRun(t, es));
    }
  }

  lemma EditSince(t: Table, e: Edit)
    requires Stamped(t)
    ensures Stamped(Edited(t, e)) && Since(t, Edited(t, e))
  {
  }

  lemma SinceTransitive(t: Table, u: Table, v: Table)
    requires Since(t, u) && Since(u, v)
    ensures Since(t, v)
  {
  }

  // ---- the baseline ---------------------------------------------------------------------------------

  /** The parts of a document's fingerprint that are needed here. */
  datatype Mark = Mark(updatedAt: int, active: bool, sha: string)

  function Keys(domain: Domain, docs: Docs): set<Key> {
    set x | x in docs :: DocKey(domain, docs[x])
  }

  /** `_document_baseline`: one fingerprint per identity key, of the document that the query lists last. */
  function Baseline(domain: Domain, pick: Pick, docs: Docs): map<Key, Option<Mark>> {
    map key | key in Keys(domain, docs) ::
      var doc := DocAt(docs, Find(domain, pick, docs, key));
      if doc.None? then None else Some(Mark(doc.value.updatedAt, doc.value.active, doc.value.sha))
  }

  lemma KeysAreHeld(domain: Domain, docs: Docs, key: Key)
    ensures key in Keys(domain, docs) <==> Holders(domain, docs, key) != {}
  {
    if key in Keys(domain, docs) {
      var x :| x in docs && DocKey(domain, docs[x]) == key;
      assert x in Holders(domain, docs, key);
    }
    if x :| x in Holders(domain, docs, key) {
      assert DocKey(domain, docs[x]) in Keys(domain, docs);
    }
  }

  /** An unchanged baseline: the same documents are found, in the very version they had when it was taken. */
  lemma BaselineNames(domain: Domain, t: Table, p: Pick, later: Table, q: Pick, key: Key)
    requires Stamped(t) && Since(t, later) && Picks(p) && Picks(q)
    requires Baseline(domain, p, t.docs) == Baseline(domain, q, later.docs)
    ensures Find(domain, p, t.docs, key) == Find(domain, q, later.docs, key)
    ensures var hit := Find(domain, q, later.docs, key); DocAt(t.docs, hit) == DocAt(later.docs, hit)
    ensures var hit := Find(domain, q, later.docs, key);
            hit.Some? ==> hit.value in later.docs && later.docs[hit.value].updatedAt < t.clock
  {
    KeysAreHeld(domain, t.docs, key);
    KeysAreHeld(domain, later.docs, key);
    FindIsHolder(domain, p, t.docs, key);
    FindIsHolder(domain, q, later.docs, key);
    assert Baseline(domain, p, t.docs).Keys == Keys(domain, t.docs);
    assert Baseline(domain, q, later.docs).Keys == Keys(domain, later.docs);
    if key in Keys(domain, t.docs) {
      assert Baseline(domain, p, t.docs)[key] == Baseline(domain, q, later.docs)[key];
      var x, y := Find(domain, p, t.docs, key).value, Find(domain, q, later.docs, key).value;
      assert t.docs[x].updatedAt == later.docs[y].updatedAt;
    }
  }

  // ---- what was previewed is what is applied --------------------------------------------------------

  /** No two documents share the key of a row. */
  ghost predicate UniqueRows(domain: Domain, docs: Docs, rows: seq<Row>) {
    forall j {:trigger rows[j]} :: 0 <= j < |rows| ==> UniqueAt(domain, docs, RowKey(domain, rows[j]))
  }

  /** At the time of `u` no document had the key of a row without still having it now. */
  ghost predicate NoVisitors(domain: Domain, u: Docs, now: Docs, rows: seq<Row>) {
    forall j {:trigger rows[j]} :: 0 <= j < |rows| ==> NoVisitorAt(domain, u, now, RowKey(domain, rows[j]))
  }

  ghost predicate NoVisitorAt(domain: Domain, u: Docs, now: Docs, key: Key) {
    Holders(domain, u, key) <= Holders(domain, now, key)
  }

  /** In between, the holders of the baseline's documents were there, as they are now. */
  lemma HoldersPersist(domain: Domain, t: Table, p: Pick, u: Table, now: Table, q: Pick, key: Key)
    requires Stamped(t) && Since(t, u) && Since(u, now) && Picks(p) && Picks(q) && UniqueAt(domain, now.docs, key)
    requires Baseline(domain, p, t.docs) == Baseline(domain, q, now.docs)
    ensures Holders(domain, now.docs, key) <= Holders(domain, u.docs, key)
    ensures forall y :: y in Holders(domain, now.docs, key) ==> y in u.docs && u.docs[y] == now.docs[y]
  {
    SinceTransitive(t, u, now);
    BaselineNames(domain, t, p, now, q, key);
    FindIsHolder(domain, q, now.docs, key);
    forall y | y in Holders(domain, now.docs, key) ensures y in u.docs && u.docs[y] == now.docs[y] {
      FindUnique(domain, q, now.docs, key, y);
    }
  }

  /**
   Whichever documents the two queries list last, a look-up made in between is bound to find what is found now exactly
   when no visitor had the key then.
   */
  lemma SeenAsNowIffNoVisitor(domain: Domain, t: Table, p: Pick, u: Table, now: Table, q: Pick, key: Key)
    requires Stamped(t) && Since(t, u) && Since(u, now) && Picks(p) && Picks(q) && UniqueAt(domain, now.docs, key)
    requires Baseline(domain, p, t.docs) == Baseline(domain, q, now.docs)
    ensures (forall a: Pick, b: Pick :: Picks(a) && Picks(b) ==>
            Find(domain, a, u.docs, key) == Find(domain, b, now.docs, key))
            <==> NoVisitorAt(domain, u.docs, now.docs, key)
  {
    HoldersPersist(domain, t, p, u, now, q, key);
    if NoVisitorAt(domain, u.docs, now.docs, key) {
      forall a: Pick, b: Pick | Picks(a) && Picks(b)
        ensures Find(domain, a, u.docs, key) == Find(domain, b, now.docs, key)
      {
        SeenAsNow(domain, t, p, u, a, now, q, b, key);
      }
    } else {
      var z :| z in Holders(domain, u.docs, key) && z !in Holders(domain, now.docs, key);
      assert Find(domain, Prefer(z), u.docs, key) == Some(z);
      FindIsHolder(domain, Prefer(z), now.docs, key);
      assert Find(domain, Prefer(z), u.docs, key) != Find(domain, Prefer(z), now.docs, key);
    }
  }

  lemma SeenAsNow(domain: Domain, t: Table, p: Pick, u: Table, a: Pick, now: Table, q: Pick, b: Pick, key: Key)
    requires Stamped(t) && Since(t, u) && Since(u, now) && Picks(p) && Picks(q) && Picks(a) && Picks(b)
    requires Baseline(domain, p, t.docs) == Baseline(domain, q, now.docs)
    requires UniqueAt(domain, now.docs, key) && NoVisitorAt(domain, u.docs, now.docs, key)
    ensures Find(domain, a, u.docs, key) == Find(domain, b, now.docs, key)
    ensures DocAt(u.docs, Find(domain, a, u.docs, key)) == DocAt(now.docs, Find(domain, b, now.docs, key))
  {
    HoldersPersist(domain, t, p, u, now, q, key);
    assert Holders(domain, u.docs, key) == Holders(domain, now.docs, key);
    FindIsHolder(domain, a, u.docs, key);
    FindIsHolder(domain, b, now.docs, key);
  }

  /** So a preview made without visitors is the preview of the documents met when applying. */
  lemma PreviewedAsNow(
      domain: Domain, t: Table, p: Pick, u: Table, a: Pick, now: Table, q: Pick, b: Pick, rows: seq<Row>)
    requires Stamped(t) && Since(t, u) && Since(u, now) && Picks(p) && Picks(q) && Picks(a) && Picks(b)
    requires Baseline(domain, p, t.docs) == Baseline(domain, q, now.docs)
    requires UniqueRows(domain, now.docs, rows) && NoVisitors(domain, u.docs, now.docs, rows)
    ensures Preview(domain, a, u.docs, rows) == Preview(domain, b, now.docs, rows)
  {
    var hits, hits' := Lookups(domain, a, u.docs, rows), Lookups(domain, b, now.docs, rows);
    forall j | 0 <= j < |rows| ensures hits[j] == hits'[j] && DocAt(u.docs, hits[j]) == DocAt(now.docs, hits[j]) {
      assert UniqueAt(domain, now.docs, RowKey(domain, rows[j]));
      SeenAsNow(domain, t, p, u, a, now, q, b, RowKey(domain, rows[j]));
    }
    assert hits == hits';
    assert Proposals(domain, u.docs, rows, hits) == Proposals(domain, now.docs, rows, hits);
  }

  // ---- review ---------------------------------------------------------------------------------------

  /** A previewed batch under review. */
  datatype Batch = Batch(rows: seq<Row>, counts: Counts, review: seq<nat>, decisions: Decisions)

  datatype ReviewStep =
    | SetDecision(key: nat, decision: Decision)
    | ApproveAll
    | SetCoordinates(row: int, longitude: real, latitude: real)

  function NewBatch(domain: Domain, pick: Pick, docs: Docs, rows: seq<Row>): Batch {
    var (counts, review) := Preview(domain, pick, docs, rows);
    Batch(rows, counts, review, map[])
  }

  /** The step previews the rows again. */
  predicate Previews(b: Batch, step: ReviewStep) {
    step.SetCoordinates? && 0 <= step.row < |b.rows| && -180.0 <= step.longitude <= 180.0
    && -90.0 <= step.latitude <= 90.0
  }

  /**
   `set_review_decision`, `approve_all_review_decisions` and `set_review_coordinates`; a refused step changes nothing.
   */
  function Review(domain: Domain, pick: Pick, docs: Docs, b: Batch, step: ReviewStep): Batch {
    match step
    case SetDecision(key, d) => if key !in b.review then b else b.(decisions := b.decisions[key := d])
    case ApproveAll => b.(decisions := b.decisions + map k | k in b.review :: Approved)
    case SetCoordinates(i, x, y) =>
      if !Previews(b, step) then b
      else
        var rows := b.rows[i := b.rows[i].(longitude := Some(x), latitude := Some(y))];
        var (counts, review) := Preview(domain, pick, docs, rows);
        Batch(rows, counts, review, map k | k in b.decisions && k in review :: b.decisions[k])
  }

  /** Counts and review list are a preview of the staged rows, and only updates proposed by it have a decision. */
  ghost predicate BatchOk(domain: Domain, pick: Pick, docs: Docs, b: Batch) {
    && (b.counts, b.review) == Preview(domain, pick, docs, b.rows)
    && forall k :: k in b.decisions ==> k in b.review
  }

  /** The rows agree on everything but coordinates. */
  ghost predicate SameButCoordinates(rows: seq<Row>, rows': seq<Row>) {
    |rows'| == |rows| &&
    forall i :: 0 <= i < |rows| ==> rows'[i] == rows[i].(longitude := rows'[i].longitude, latitude := rows'[i].latitude)
  }

  /** From the package to the reviewed batch no row changes its identity or its action. */
  lemma KeysThroughout(domain: Domain, pick: Pick, docs: Docs, offered: seq<Row>, rows: seq<Row>, j: nat)
    requires SameButCoordinates(Prepared(domain, pick, docs, offered), rows) && j < |offered|
    ensures RowKey(domain, rows[j]) == RowKey(domain, offered[j]) && rows[j].action == offered[j].action
  {
  }

  lemma ReviewStepKeeps(domain: Domain, pick: Pick, docs: Docs, seen: Docs, choice: Pick, b: Batch, step: ReviewStep)
    requires BatchOk(domain, choice, seen, b)
    ensures var b' := Review(domain, pick, docs, b, step);
            && SameButCoordinates(b.rows, b'.rows)
            && if Previews(b, step) then BatchOk(domain, pick, docs, b') else BatchOk(domain, choice, seen, b')
  {
  }

  /** Approving everything leaves no update undecided. */
  lemma ApproveAllDecides(domain: Domain, pick: Pick, docs: Docs, b: Batch, k: nat)
    requires k in b.review
    ensures var b' := Review(domain, pick, docs, b, ApproveAll); k in b'.decisions && b'.decisions[k] == Approved
  {
  }

  // ---- sessions: reviews and edits interleaved ------------------------------------------------------

  /** `seen` is the table that the batch was last previewed against, and `choice` what its query listed last. */
  datatype Session = Session(table: Table, batch: Batch, seen: Table, choice: Pick)

  datatype Event = EditBy(edit: Edit) | ReviewBy(step: ReviewStep, pick: Pick)

  function Happen(domain: Domain, s: Session, e: Event): Session {
    match e
    case EditBy(edit) => s.(table := Edited(s.table, edit))
    case ReviewBy(step, pick) =>
      var s' := s.(batch := Review(domain, pick, s.table.docs, s.batch, step));
      if Previews(s.batch, step) then s'.(seen := s.table, choice := pick) else s'
  }

  function Course(domain: Domain, s: Session, es: seq<Event>): Session {
    if es == [] then s else Happen(domain, Course(domain, s, es[..|es| - 1]), es[|es| - 1])
  }

  ghost predicate Lawful(es: seq<Event>) {
    forall e :: e in es && e.ReviewBy? ==> Picks(e.pick)
  }

  ghost predicate SessionOk(domain: Domain, first: Table, s: Session) {
    && BatchOk(domain, s.choice, s.seen.docs, s.batch) && Picks(s.choice)
    && Stamped(s.table) && Since(first, s.seen) && Since(s.seen, s.table)
  }

  /**
   However reviews and edits interleave, the batch is an exact preview of its rows against the table it was last
   previewed on, decisions exist only for updates proposed there, and no row changes its identity, its content or its
   action.
   */
  lemma {:induction false} SessionStaysExact(domain: Domain, first: Table, s: Session, es: seq<Event>)
    requires SessionOk(domain, first, s) && Lawful(es)
    ensures SessionOk(domain, first, Course(domain, s, es))
    ensures SameButCoordinates(s.batch.rows, Course(domain, s, es).batch.rows)
  {
    if es != [] {
      var front, last := es[..|es| - 1], es[|es| - 1];
      SessionStaysExact(domain, first, s, front);
      assert last in es;
      HappenKeeps(domain, first, Course(domain, s, front), last);
    }
  }

  lemma HappenKeeps(domain: Domain, first: Table, s: Session, e: Event)
    requires SessionOk(domain, first, s) && (e.ReviewBy? ==> Picks(e.pick))
    ensures SessionOk(domain, first, Happen(domain, s, e))
    ensures SameButCoordinates(s.batch.rows, Happen(domain, s, e).batch.rows)
  {
    match e
    case EditBy(edit) =>
      EditSince(s.table, edit);
      SinceTransitive(s.seen, s.table, Edited(s.table, edit));
    case ReviewBy(step, pick) =>
      ReviewStepKeeps(domain, pick, s.table.docs, s.seen.docs, s.choice, s.batch, step);
      SinceTransitive(first, s.seen, s.table);
  }

  // ---- what single review steps do ------------------------------------------------------------------

  /** A decision on a document under review is stored as given, and nothing else changes; any other is refused. */
  lemma DecisionIsStored(domain: Domain, pick: Pick, docs: Docs, b: Batch, key: nat, d: Decision)
    ensures var b' := Review(domain, pick, docs, b, SetDecision(key, d));
            && b'.rows == b.rows && b'.counts == b.counts && b'.review == b.review
            && (key !in b.review ==> b'.decisions == b.decisions)
            && (key in b.review ==>
                  && b'.decisions.Keys == b.decisions.Keys + {key} && b'.decisions[key] == d
                  && forall k :: k in b.decisions && k != key ==> b'.decisions[k] == b.decisions[k])
  {
  }

  /** Approving all decides exactly the documents under review, all of them by approval. */
  lemma ApprovingAllIsExact(domain: Domain, pick: Pick, docs: Docs, b: Batch)
    requires forall k :: k in b.decisions ==> k in b.review
    ensures var b' := Review(domain, pick, docs, b, ApproveAll);
            && b'.rows == b.rows && b'.counts == b.counts && b'.review == b.review
            && (forall k :: k in b'.decisions <==> k in b.review)
            && (forall k :: k in b'.decisions ==> b'.decisions[k] == Approved)
  {
  }

  /**
   Coordinates within range are stored in their row, and in no other; the batch is previewed again, and of the earlier
   decisions those are kept, unaltered, whose document is still under review. Coordinates out of range change nothing.
   */
  lemma CoordinatesAreStored(
      domain: Domain, pick: Pick, docs: Docs, b: Batch, i: int, longitude: real, latitude: real)
    ensures var b' := Review(domain, pick, docs, b, SetCoordinates(i, longitude, latitude));
            if 0 <= i < |b.rows| && -180.0 <= longitude <= 180.0 && -90.0 <= latitude <= 90.0 then
              && SameButCoordinates(b.rows, b'.rows)
              && b'.rows[i].longitude == Some(longitude) && b'.rows[i].latitude == Some(latitude)
              && (forall j :: 0 <= j < |b.rows| && j != i ==> b'.rows[j] == b.rows[j])
              && (b'.counts, b'.review) == Preview(domain, pick, docs, b'.rows)
              && (forall k :: k in b'.decisions <==> k in b.decisions && k in b'.review)
              && (forall k :: k in b'.decisions ==> b'.decisions[k] == b.decisions[k])
            else b' == b
  {
  }

  /** The event leaves the decision on `key` to be what it is. */
  predicate LeavesDecision(e: Event, key: nat) {
    e.ReviewBy? ==> !e.step.ApproveAll? && (e.step.SetDecision? ==> e.step.key != key)
  }

  /**
   A decision stands: whatever edits, decisions on other documents and new previews follow, the decision on a document
   under review is still the one given, unless a new preview has dropped it.
   */
  lemma {:induction false} DecisionStands(domain: Domain, s: Session, pick: Pick, key: nat, d: Decision, es: seq<Event>)
    requires key in s.batch.review && forall e :: e in es ==> LeavesDecision(e, key)
    ensures var decided := Happen(domain, s, ReviewBy(SetDecision(key, d), pick));
            var end := Course(domain, decided, es).batch;
            key in end.decisions ==> end.decisions[key] == d
    ensures var decided := Happen(domain, s, ReviewBy(SetDecision(key, d), pick));
            (forall e :: e in es && e.ReviewBy? ==> !e.step.SetCoordinates?) ==>
            key in Course(domain, decided, es).batch.decisions
  {
    if es != [] {
      var front, last := es[..|es| - 1], es[|es| - 1];
      assert last in es;
      DecisionStands(domain, s, pick, key, d, front);
      var decided := Happen(domain, s, ReviewBy(SetDecision(key, d), pick));
      StepLeavesDecision(domain, Course(domain, decided, front), last, key);
    }
  }

  lemma StepLeavesDecision(domain: Domain, s: Session, e: Event, key: nat)
    requires LeavesDecision(e, key)
    ensures var b' := Happen(domain, s, e).batch;
            && (key in b'.decisions ==> key in s.batch.decisions && b'.decisions[key] == s.batch.decisions[key])
            && ((e.ReviewBy? ==> !e.step.SetCoordinates?) && key in s.batch.decisions ==> key in b'.decisions)
  {
  }

  /** Both are there, in one version, or neither is. */
  predicate SameVersion(doc: Option<Doc>, other: Option<Doc>) {
    && (doc.Some? <==> other.Some?)
    && (doc.Some? ==>
          && doc.value.updatedAt == other.value.updatedAt && doc.value.active == other.value.active
          && doc.value.sha == other.value.sha)
  }

  /** The two queries list documents of one version last for the key, or none. */
  ghost predicate VersionsAgree(domain: Domain, p: Pick, docs: Docs, q: Pick, docs': Docs, key: Key) {
    SameVersion(DocAt(docs, Find(domain, p, docs, key)), DocAt(docs', Find(domain, q, docs', key)))
  }

  lemma BaselineAt(domain: Domain, p: Pick, docs: Docs, key: Key)
    requires Picks(p)
    ensures var doc := DocAt(docs, Find(domain, p, docs, key));
            && (key in Baseline(domain, p, docs) <==> doc.Some?)
            && (doc.Some? ==>
                  Baseline(domain, p, docs)[key] == Some(Mark(doc.value.updatedAt, doc.value.active, doc.value.sha)))
  {
    KeysAreHeld(domain, docs, key);
    FindIsHolder(domain, p, docs, key);
  }

  /** The maps agree on the key. */
  predicate AgreeAt(a: map<Key, Option<Mark>>, b: map<Key, Option<Mark>>, key: Key) {
    (key in a <==> key in b) && (key in a && key in b ==> a[key] == b[key])
  }

  lemma VersionsAgreeAt(domain: Domain, p: Pick, docs: Docs, q: Pick, docs': Docs, key: Key)
    requires Picks(p) && Picks(q)
    ensures VersionsAgree(domain, p, docs, q, docs', key) <==>
            AgreeAt(Baseline(domain, p, docs), Baseline(domain, q, docs'), key)
  {
    BaselineAt(domain, p, docs, key);
    BaselineAt(domain, q, docs', key);
  }

  lemma AgreeEverywhere(a: map<Key, Option<Mark>>, b: map<Key, Option<Mark>>)
    ensures a == b <==> forall key {:trigger AgreeAt(a, b, key)} :: AgreeAt(a, b, key)
  {
    if forall key {:trigger AgreeAt(a, b, key)} :: AgreeAt(a, b, key) {
      forall key ensures (key in a <==> key in b) && (key in a ==> a[key] == b[key]) { assert AgreeAt(a, b, key); }
    }
  }

  /**
   What a baseline notices: two are equal exactly when the same identity keys are held, and for each the document the
   query lists last was saved at the same time, is as active and has the same content as the other's.
   */
  lemma BaselineAgreesIff(domain: Domain, p: Pick, docs: Docs, q: Pick, docs': Docs)
    requires Picks(p) && Picks(q)
    ensures Baseline(domain, p, docs) == Baseline(domain, q, docs') <==>
            forall key {:trigger VersionsAgree(domain, p, docs, q, docs', key)} ::
              VersionsAgree(domain, p, docs, q, docs', key)
  {
    var a, b := Baseline(domain, p, docs), Baseline(domain, q, docs');
    AgreeEverywhere(a, b);
    if forall key {:trigger VersionsAgree(domain, p, docs, q, docs', key)} ::
        VersionsAgree(domain, p, docs, q, docs', key) {
      forall key ensures AgreeAt(a, b, key) { VersionsAgreeAt(domain, p, docs, q, docs', key); }
    }
    if a == b {
      forall key ensures VersionsAgree(domain, p, docs, q, docs', key) {
        VersionsAgreeAt(domain, p, docs, q, docs', key);
      }
    }
  }

  /**
   A staged row is the offered one, but for a row whose content the document found holds already: that one goes without
   an output of its own and takes over the digest, size and page count of the document's PDF.
   */
  lemma StagedMeans(domain: Domain, pick: Pick, docs: Docs, row: Row, x: nat)
    requires Picks(pick) && UniqueAt(domain, docs, RowKey(domain, row))
    requires x in docs && DocKey(domain, docs[x]) == RowKey(domain, row)
    ensures var staged := Staged(domain, pick, docs, row);
            if row.action.Upsert? && docs[x].sourceSha == row.sourceSha
            then
              staged == row.(staging := None, sanitizedSha := docs[x].sha,
                             file := File(row.file.name, docs[x].file.size, docs[x].file.pages))
            else staged == row
  {
    FindUnique(domain, pick, docs, RowKey(domain, row), x);
  }

  lemma UnmatchedIsStagedAsOffered(domain: Domain, pick: Pick, docs: Docs, row: Row)
    requires forall x :: x in docs ==> DocKey(domain, docs[x]) != RowKey(domain, row)
    ensures Staged(domain, pick, docs, row) == row
  {
    assert Holders(domain, docs, RowKey(domain, row)) == {};
  }
}
