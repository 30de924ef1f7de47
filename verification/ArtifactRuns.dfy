/**
 Concurrent builds, terminal releases, queue retries and orphan sweeps over the shared document artifacts, as a state
 machine whose steps are the points where other workers can be seen.
 */
module ArtifactRuns {
  import opened DocumentArtifacts

  datatype Status = Building | Kept | Terminal

  datatype PublicationState = PublicationState(dataset: string, status: Status)

  /** The artifact a build is working on: identity chosen, then ciphertext promoted. */
  datatype Candidate = Idle | Chosen(id: Id, key: Key) | Promoted(id: Id, key: Key, stamp: Stamp)

  /**
   One run of the build job. While `running`, `rows`, `refs` and `queue` are what its open transaction will commit and
   `locks` the artifact rows it holds. `created` lists the identities it must compensate for, and outlives the
   transaction.
   */
  datatype Build = Build(
    pub: Publication, running: bool, created: set<Id>, candidate: Candidate,
    rows: map<Id, Row>, refs: map<nat, Id>, queue: set<Id>, locks: set<Id>)

  /** `issued` holds every identity ever chosen; `lost` those created by builds whose process died. */
  datatype System = System(
    db: Db, builds: map<nat, Build>, pubs: map<Publication, PublicationState>, issued: set<Id>, lost: set<Id>)

  datatype Command =
    | Open(pub: Publication, dataset: string)
    | Advance(pub: Publication)
    | Begin(build: nat, pub: Publication)
    | Reuse(build: nat, key: Key, id: Id)
    | Choose(build: nat, key: Key, id: Id)
    | Promote(build: nat, stamp: Stamp)
    | Insert(build: nat)
    | LoseRace(build: nat, winner: Id)
    | Commit(build: nat)
    | Rollback(build: nat)
    | Crash(build: nat)
    | Compensate(build: nat, id: Id)
    | Finish(build: nat)
    | Terminate(pub: Publication)
    | Process(id: Id, works: bool)
    | Sweep(id: Id)

  // ---- steps ----------------------------------------------------------------------------------------

  predicate HasRefs(db: Db, p: Publication) {
    exists k :: k in db.refs && k.0 == p
  }

  /** `p` is locked by a running build. */
  predicate Busy(s: System, p: Publication) {
    exists i :: i in s.builds && s.builds[i].running && s.builds[i].pub == p
  }

  /** The row of `a` is locked by a running build other than `except`. */
  predicate LockedBut(s: System, a: Id, except: nat) {
    exists i :: i in s.builds && i != except && a in s.builds[i].locks
  }

  predicate Locked(s: System, a: Id) {
    exists i :: i in s.builds && a in s.builds[i].locks
  }

  /** Some stored row has this key. */
  predicate Stored(db: Db, key: Key) {
    exists a :: a in db.rows && db.rows[a].key == key
  }

  /** Another build has inserted the key without having committed: a second insert waits for it. */
  predicate Inserting(s: System, key: Key, except: nat) {
    exists i, a :: i in s.builds && i != except && a in s.builds[i].rows && s.builds[i].rows[a].key == key
  }

  predicate Idling(s: System, i: nat) {
    i in s.builds && s.builds[i].running && s.builds[i].candidate.Idle?
  }

  /** The build may still add a reference for the document of `key`. */
  predicate Wanted(s: System, i: nat, key: Key)
    requires i in s.builds
  {
    s.builds[i].pub in s.pubs && key.dataset == s.pubs[s.builds[i].pub].dataset && key.document !in s.builds[i].refs
  }

  /** `validate_document_artifact_storage`. */
  predicate Intact(db: Db, a: Id)
    requires a in db.rows
  {
    a in db.files && db.files[a] == db.rows[a].stamp
  }

  function Closed(b: Build): Build {
    b.(running := false, candidate := Idle, rows := map[], refs := map[], queue := {}, locks := {})
  }

  function Committed(db: Db, b: Build): Db {
    Db(db.rows + b.rows,
       map k | k in db.refs.Keys + set d | d in b.refs :: (b.pub, d) :: if k.0 == b.pub && k.1 in b.refs
           then b.refs[k.1] else db.refs[k],
       db.queue + b.queue, db.files)
  }

  /** A command that cannot happen now (waiting for a lock, say, or refused) leaves the system as it is. */
  function Step(s: System, c: Command): System {
    match c
    case Open(p, dataset) =>
      if p in s.pubs then s else s.(pubs := s.pubs[p := PublicationState(dataset, Building)])
    case Advance(p) =>
      if p !in s.pubs || !s.pubs[p].status.Building? || Busy(s, p) then s
      else s.(pubs := s.pubs[p := s.pubs[p].(status := Kept)])
    case Begin(i, p) =>
      if i in s.builds || p !in s.pubs || !s.pubs[p].status.Building? || Busy(s, p) || HasRefs(s.db, p) then s
      else s.(builds := s.builds[i := Build(p, true, {}, Idle, map[], map[], {}, {})])
    case Reuse(i, key, a) =>
      if !Idling(s, i) || !Wanted(s, i, key) || a !in s.db.rows || s.db.rows[a].key != key || LockedBut(s, a, i)
          || !Intact(s.db, a)
      then s
      else
        var b := s.builds[i];
        s.(builds := s.builds[i := b.(refs := b.refs[key.document := a], locks := b.locks + {a})])
    case Choose(i, key, a) =>
      if !Idling(s, i) || !Wanted(s, i, key) || Stored(s.db, key) || a in s.issued then s
      else
        var b := s.builds[i];
        s.(builds := s.builds[i := b.(candidate := Chosen(a, key), created := b.created + {a})],
            issued := s.issued + {a})
    case Promote(i, stamp) =>
      if i !in s.builds || !s.builds[i].running || !s.builds[i].candidate.Chosen? then s
      else
        var b := s.builds[i];
        s.(builds := s.builds[i := b.(candidate := Promoted(b.candidate.id, b.candidate.key, stamp))],
           db := s.db.(files := s.db.files[b.candidate.id := stamp]))
    case Insert(i) =>
      if i !in s.builds || !s.builds[i].running || !s.builds[i].candidate.Promoted? then s
      else
        var b := s.builds[i];
        var a, key := b.candidate.id, b.candidate.key;
        if Stored(s.db, key) || Inserting(s, key, i) then s
        else
          s.(builds := s.builds[i := b.(candidate := Idle, rows := b.rows[a := Row(key, b.candidate.stamp)],
                                        refs := b.refs[key.document := a])])
    case LoseRace(i, w) =>
      if i !in s.builds || !s.builds[i].running || !s.builds[i].candidate.Promoted? then s
      else
        var b := s.builds[i];
        var a, key := b.candidate.id, b.candidate.key;
        if w !in s.db.rows || s.db.rows[w].key != key || LockedBut(s, w, i) || !Intact(s.db, w) then s
        else
          s.(builds := s.builds[i := b.(candidate := Idle, queue := b.queue + {a}, locks := b.locks + {w},
                                        refs := b.refs[key.document := w])])
    case Commit(i) =>
      if !Idling(s, i) then s
      else s.(db := Committed(s.db, s.builds[i]), builds := s.builds[i := Closed(s.builds[i])])
    case Rollback(i) =>
      if i !in s.builds || !s.builds[i].running then s
      else s.(builds := s.builds[i := Closed(s.builds[i])])
    case Crash(i) =>
      if i !in s.builds then s
      else s.(builds := s.builds - {i}, lost := s.lost + s.builds[i].created)
    case Compensate(i, a) =>
      if i !in s.builds || s.builds[i].running || a !in s.builds[i].created then s
      else
        var b := s.builds[i];
        s.(builds := s.builds[i := b.(created := b.created - {a})],
           db := if a in s.db.rows then s.db else s.db.(queue := s.db.queue + {a}))
    case Finish(i) =>
      if i !in s.builds || s.builds[i].running || s.builds[i].created != {} then s
      else s.(builds := s.builds - {i})
    case Terminate(p) =>
      if p !in s.pubs || Busy(s, p) || (exists a :: a in UsedBy(s.db, p) && Locked(s, a)) then s
      else s.(db := ReleaseOf(s.db, p), pubs := s.pubs[p := s.pubs[p].(status := Terminal)])
    case Process(a, works) => s.(db := ProcessOf(s.db, a, works))
    case Sweep(a) => if Locked(s, a) then s else s.(db := SweepOf(s.db, a))
  }

  function Run(s: System, cs: seq<Command>): System {
    if cs == [] then s else Step(Run(s, cs[..|cs| - 1]), cs[|cs| - 1])
  }

  function Start(): System {
    System(Db(map[], map[], {}, map[]), map[], map[], {}, {})
  }

  // ---- invariant ------------------------------------------------------------------------------------

  /** A stored artifact has its file and is not up for removal. */
  ghost predicate RowOk(db: Db, issued: set<Id>, a: Id)
    requires a in db.rows
  {
    Intact(db, a) && a !in db.queue && a in issued
  }

  ghost predicate RefOk(db: Db, pubs: map<Publication, PublicationState>, k: (Publication, nat))
    requires k in db.refs
  {
    && db.refs[k] in db.rows && k.0 in pubs && !pubs[k.0].status.Terminal?
    && db.rows[db.refs[k]].key.document == k.1 && db.rows[db.refs[k]].key.dataset == pubs[k.0].dataset
  }

  ghost predicate UniqueKeys(rows: map<Id, Row>) {
    forall a, b :: a in rows && b in rows && rows[a].key == rows[b].key ==> a == b
  }

  /** No key occurs in both. */
  ghost predicate KeysApart(rows: map<Id, Row>, others: map<Id, Row>) {
    forall a, b :: a in rows && b in others ==> rows[a].key != others[b].key
  }

  ghost predicate TablesOk(db: Db, pubs: map<Publication, PublicationState>, issued: set<Id>) {
    && (forall a {:trigger RowOk(db, issued, a)} {:trigger a in db.rows} :: a in db.rows ==> RowOk(db, issued, a))
    && (forall k {:trigger RefOk(db, pubs, k)} {:trigger k in db.refs} :: k in db.refs ==> RefOk(db, pubs, k))
    && UniqueKeys(db.rows) && db.queue <= issued && db.files.Keys <= issued
  }

  /** A pending reference leads to a row the transaction locked or inserted. */
  ghost predicate PendingRefOk(db: Db, b: Build, dataset: string, d: nat)
    requires d in b.refs
  {
    var a := b.refs[d];
    || (a in b.rows && b.rows[a].key.document == d && b.rows[a].key.dataset == dataset)
    || (a in b.locks && a in db.rows && db.rows[a].key.document == d && db.rows[a].key.dataset == dataset)
  }

  ghost predicate RunningOk(db: Db, pubs: map<Publication, PublicationState>, b: Build) {
    && b.created !! db.rows.Keys && b.created !! db.queue
    && b.pub in pubs && pubs[b.pub].status.Building? && !HasRefs(db, b.pub)
    && b.locks <= db.rows.Keys
    && PendingOk(db.files, b) && KeysApart(b.rows, db.rows)
    && CandidateOk(db.files, b, pubs[b.pub].dataset)
    && forall d :: d in b.refs ==> PendingRefOk(db, b, pubs[b.pub].dataset, d)
  }

  ghost predicate PendingOk(files: map<Id, Stamp>, b: Build) {
    && b.rows.Keys <= b.created && b.queue <= b.created && b.rows.Keys !! b.queue && UniqueKeys(b.rows)
    && forall a :: a in b.rows ==> a in files && files[a] == b.rows[a].stamp && b.rows[a].key.document in b.refs
  }

  ghost predicate CandidateOk(files: map<Id, Stamp>, b: Build, dataset: string) {
    !b.candidate.Idle? ==>
      && b.candidate.id in b.created && b.candidate.id !in b.rows && b.candidate.id !in b.queue
      && b.candidate.key.dataset == dataset && b.candidate.key.document !in b.refs
      && (b.candidate.Promoted? ==> b.candidate.id in files && files[b.candidate.id] == b.candidate.stamp)
  }

  ghost predicate BuildOk(db: Db, pubs: map<Publication, PublicationState>, issued: set<Id>, b: Build) {
    b.created <= issued && if b.running then RunningOk(db, pubs, b) else b == Closed(b)
  }

  /** Two builds never share an identity, a lock, a pending key or, while running, a publication. */
  ghost predicate Apart(b: Build, o: Build) {
    b.created !! o.created && b.locks !! o.locks && KeysApart(b.rows, o.rows)
    && (b.running && o.running ==> b.pub != o.pub)
  }

  ghost predicate BuildsOk(s: System) {
    && (forall i {:trigger s.builds[i]} :: i in s.builds ==> BuildOk(s.db, s.pubs, s.issued, s.builds[i]))
    && (forall i, j {:trigger s.builds[i], s.builds[j]} :: i in s.builds && j in s.builds && i != j ==>
        Apart(s.builds[i], s.builds[j]))
  }

  /** A file nobody answers for was left behind by a dead process. */
  ghost predicate Accounted(s: System, a: Id) {
    a in s.db.rows || a in s.db.queue || a in s.lost || exists i :: i in s.builds && a in s.builds[i].created
  }

  ghost predicate FilesOk(s: System) {
    forall a :: a in s.db.files ==> Accounted(s, a)
  }

  ghost predicate Inv(s: System) {
    TablesOk(s.db, s.pubs, s.issued) && BuildsOk(s) && FilesOk(s)
  }

  // ---- every step keeps the invariant ---------------------------------------------------------------

  /** What a step of somebody else must leave alone for the open transaction of `b`. */
  ghost predicate Undisturbed(
      db: Db, db': Db, pubs: map<Publication, PublicationState>, pubs': map<Publication, PublicationState>, b: Build) {
    && b.created !! db'.rows.Keys && b.created !! db'.queue
    && (b.pub in pubs ==> b.pub in pubs' && pubs'[b.pub] == pubs[b.pub]) && !HasRefs(db', b.pub)
    && (forall a :: a in b.locks && a in db.rows ==> a in db'.rows && db'.rows[a] == db.rows[a])
    && (forall a :: a in b.created && a in db.files ==> a in db'.files && db'.files[a] == db.files[a])
    && KeysApart(b.rows, db'.rows)
  }

  lemma Frame(db: Db, db': Db, pubs: map<Publication, PublicationState>, pubs': map<Publication, PublicationState>,
              issued: set<Id>, issued': set<Id>, b: Build)
    requires BuildOk(db, pubs, issued, b) && issued <= issued'
    requires b.running ==> Undisturbed(db, db', pubs, pubs', b)
    ensures BuildOk(db', pubs', issued', b)
  {
    if b.running {
      forall d | d in b.refs ensures PendingRefOk(db', b, pubs'[b.pub].dataset, d) {
        assert PendingRefOk(db, b, pubs[b.pub].dataset, d);
      }
    }
  }

  /** The tables are only read and one build moves on. */
  lemma OneBuild(s: System, s': System, i: nat, b: Build)
    requires BuildsOk(s) && s'.builds == s.builds[i := b] && s.issued <= s'.issued
    requires BuildOk(s'.db, s'.pubs, s'.issued, b)
    requires forall j {:trigger s.builds[j]} :: j in s.builds && j != i ==>
      Apart(b, s.builds[j]) && Apart(s.builds[j], b)
      && (s.builds[j].running ==> Undisturbed(s.db, s'.db, s.pubs, s'.pubs, s.builds[j]))
    ensures BuildsOk(s')
  {
    forall j | j in s'.builds ensures BuildOk(s'.db, s'.pubs, s'.issued, s'.builds[j]) {
      if j != i { Frame(s.db, s'.db, s.pubs, s'.pubs, s.issued, s'.issued, s.builds[j]); }
    }
    forall j, k | j in s'.builds && k in s'.builds && j != k ensures Apart(s'.builds[j], s'.builds[k]) {
      if j == i { assert s'.builds[k] == s.builds[k]; } else { assert s'.builds[j] == s.builds[j]; }
    }
  }

  /** With the tables untouched, nobody else is disturbed. */
  lemma Still(s: System, j: nat)
    requires BuildsOk(s) && j in s.builds && s.builds[j].running
    ensures Undisturbed(s.db, s.db, s.pubs, s.pubs, s.builds[j])
  {
  }

  /** A build moves on inside its own transaction; nothing shared changes but the identities issued. */
  lemma LocalStep(s: System, i: nat, b: Build, issued: set<Id>)
    requires Inv(s) && s.issued <= issued && BuildOk(s.db, s.pubs, issued, b)
    requires i in s.builds ==> s.builds[i].created <= b.created
    requires forall j {:trigger s.builds[j]} :: j in s.builds && j != i ==> Apart(b, s.builds[j])
    ensures Inv(s.(builds := s.builds[i := b], issued := issued))
  {
    var s' := s.(builds := s.builds[i := b], issued := issued);
    forall j | j in s.builds && j != i && s.builds[j].running
      ensures Undisturbed(s.db, s'.db, s.pubs, s'.pubs, s.builds[j])
    {
      Still(s, j);
    }
    OneBuild(s, s', i, b);
    assert TablesOk(s.db, s.pubs, issued) by {
      forall a | a in s.db.rows ensures RowOk(s.db, issued, a) { assert RowOk(s.db, s.issued, a); }
    }
    forall a | a in s'.db.files ensures Accounted(s', a) {
      assert Accounted(s, a);
      if j :| j in s.builds && a in s.builds[j].created {
        assert j in s'.builds && a in s'.builds[j].created;
      }
    }
  }

  lemma BeginKeepsInv(s: System, i: nat, p: Publication)
    requires Inv(s)
    ensures Inv(Step(s, Begin(i, p)))
  {
    if Step(s, Begin(i, p)) != s {
      LocalStep(s, i, Build(p, true, {}, Idle, map[], map[], {}, {}), s.issued);
    }
  }

  lemma ReuseKeepsInv(s: System, i: nat, key: Key, a: Id)
    requires Inv(s)
    ensures Inv(Step(s, Reuse(i, key, a)))
  {
    if Step(s, Reuse(i, key, a)) != s {
      var b := s.builds[i];
      var b' := b.(refs := b.refs[key.document := a], locks := b.locks + {a});
      assert RunningOk(s.db, s.pubs, b') by {
        forall d | d in b'.refs ensures PendingRefOk(s.db, b', s.pubs[b.pub].dataset, d) {
          if d != key.document { assert PendingRefOk(s.db, b, s.pubs[b.pub].dataset, d); }
        }
      }
      LocalStep(s, i, b', s.issued);
    }
  }

  lemma ChooseKeepsInv(s: System, i: nat, key: Key, a: Id)
    requires Inv(s)
    ensures Inv(Step(s, Choose(i, key, a)))
  {
    if Step(s, Choose(i, key, a)) != s {
      var b := s.builds[i];
      var b' := b.(candidate := Chosen(a, key), created := b.created + {a});
      forall j | j in s.builds && j != i ensures Apart(b', s.builds[j]) {
        assert BuildOk(s.db, s.pubs, s.issued, s.builds[j]);
      }
      assert RunningOk(s.db, s.pubs, b') by {
        forall d | d in b'.refs ensures PendingRefOk(s.db, b', s.pubs[b.pub].dataset, d) {
          assert PendingRefOk(s.db, b, s.pubs[b.pub].dataset, d);
        }
      }
      LocalStep(s, i, b', s.issued + {a});
    }
  }

  lemma InsertKeepsInv(s: System, i: nat)
    requires Inv(s)
    ensures Inv(Step(s, Insert(i)))
  {
    if Step(s, Insert(i)) != s {
      var b := s.builds[i];
      var a, key := b.candidate.id, b.candidate.key;
      var b' := b.(candidate := Idle, rows := b.rows[a := Row(key, b.candidate.stamp)],
          refs := b.refs[key.document := a]);
      assert RunningOk(s.db, s.pubs, b') by {
        forall d | d in b'.refs ensures PendingRefOk(s.db, b', s.pubs[b.pub].dataset, d) {
          if d != key.document { assert PendingRefOk(s.db, b, s.pubs[b.pub].dataset, d); }
        }
      }
      LocalStep(s, i, b', s.issued);
    }
  }

  lemma LoseRaceKeepsInv(s: System, i: nat, w: Id)
    requires Inv(s)
    ensures Inv(Step(s, LoseRace(i, w)))
  {
    if Step(s, LoseRace(i, w)) != s {
      var b := s.builds[i];
      var a, key := b.candidate.id, b.candidate.key;
      var b' := b.(candidate := Idle, queue := b.queue + {a}, locks := b.locks + {w},
          refs := b.refs[key.document := w]);
      assert RunningOk(s.db, s.pubs, b') by {
        forall d | d in b'.refs ensures PendingRefOk(s.db, b', s.pubs[b.pub].dataset, d) {
          if d != key.document { assert PendingRefOk(s.db, b, s.pubs[b.pub].dataset, d); }
        }
      }
      LocalStep(s, i, b', s.issued);
    }
  }

  lemma RollbackKeepsInv(s: System, i: nat)
    requires Inv(s)
    ensures Inv(Step(s, Rollback(i)))
  {
    if Step(s, Rollback(i)) != s {
      LocalStep(s, i, Closed(s.builds[i]), s.issued);
    }
  }

  lemma PromoteUndisturbs(s: System, i: nat, stamp: Stamp)
    requires Inv(s) && Step(s, Promote(i, stamp)) != s
    ensures var s' := Step(s, Promote(i, stamp));
            forall j {:trigger s.builds[j]} :: j in s.builds && j != i ==>
              Apart(s'.builds[i], s.builds[j]) && Apart(s.builds[j], s'.builds[i])
              && (s.builds[j].running ==> Undisturbed(s.db, s'.db, s.pubs, s'.pubs, s.builds[j]))
  {
    forall j | j in s.builds && j != i ensures Apart(s.builds[i], s.builds[j]) && Apart(s.builds[j], s.builds[i]) &&
      (s.builds[j].running ==> Undisturbed(s.db, s.db, s.pubs, s.pubs, s.builds[j]))
    {
      if s.builds[j].running { Still(s, j); }
    }
    assert BuildOk(s.db, s.pubs, s.issued, s.builds[i]);
  }

  /** The ciphertext appears under an identity that nobody else knows. */
  lemma PromoteKeepsInv(s: System, i: nat, stamp: Stamp)
    requires Inv(s)
    ensures Inv(Step(s, Promote(i, stamp)))
  {
    var s' := Step(s, Promote(i, stamp));
    if s' != s {
      var b := s.builds[i];
      var a, b' := b.candidate.id, s'.builds[i];
      forall x | x in s'.db.rows ensures RowOk(s'.db, s'.issued, x) { assert RowOk(s.db, s.issued, x); }
      forall k | k in s'.db.refs ensures RefOk(s'.db, s'.pubs, k) { assert RefOk(s.db, s.pubs, k); }
      assert RunningOk(s'.db, s.pubs, b') by {
        forall d | d in b'.refs ensures PendingRefOk(s'.db, b', s.pubs[b.pub].dataset, d) {
          assert PendingRefOk(s.db, b, s.pubs[b.pub].dataset, d);
        }
      }
      PromoteUndisturbs(s, i, stamp);
      OneBuild(s, s', i, b');
      forall x | x in s'.db.files ensures Accounted(s', x) {
        if x == a {
          assert i in s'.builds && x in s'.builds[i].created;
        } else {
          StillAccounted(s, s', x);
        }
      }
    }
  }

  /** The tables after a commit: its own rows and references join, and its queued identities were never stored. */
  lemma CommittedTables(s: System, i: nat)
    requires Inv(s) && Idling(s, i)
    ensures TablesOk(Committed(s.db, s.builds[i]), s.pubs, s.issued)
  {
    var b := s.builds[i];
    var db := Committed(s.db, b);
    forall a | a in db.rows ensures RowOk(db, s.issued, a) {
      if a !in b.rows { assert RowOk(s.db, s.issued, a); }
    }
    forall k | k in db.refs ensures RefOk(db, s.pubs, k) {
      if k in s.db.refs {
        assert RefOk(s.db, s.pubs, k);
        assert k.0 != b.pub;
        assert s.db.refs[k] !in b.rows;
      } else {
        assert PendingRefOk(s.db, b, s.pubs[b.pub].dataset, k.1);
      }
    }
    assert UniqueKeys(db.rows) by {
      assert KeysApart(b.rows, s.db.rows) && UniqueKeys(b.rows) && UniqueKeys(s.db.rows);
    }
  }

  lemma CommitUndisturbs(s: System, i: nat, j: nat)
    requires Inv(s) && Idling(s, i) && j in s.builds && j != i && s.builds[j].running
    ensures Undisturbed(s.db, Committed(s.db, s.builds[i]), s.pubs, s.pubs, s.builds[j])
  {
    var b, o := s.builds[i], s.builds[j];
    assert Apart(b, o) && Apart(o, b);
    var db := Committed(s.db, b);
    forall k | k in db.refs ensures k.0 != o.pub {
      assert k in s.db.refs || k.0 == b.pub;
    }
    forall a | a in o.locks && a in s.db.rows ensures db.rows[a] == s.db.rows[a] {
      assert a !in b.rows;
    }
  }

  lemma CommitKeepsInv(s: System, i: nat)
    requires Inv(s)
    ensures Inv(Step(s, Commit(i)))
  {
    if Idling(s, i) {
      var s' := Step(s, Commit(i));
      var b := s.builds[i];
      CommittedTables(s, i);
      forall j | j in s.builds && j != i ensures Apart(Closed(b), s.builds[j]) && Apart(s.builds[j], Closed(b)) &&
        (s.builds[j].running ==> Undisturbed(s.db, s'.db, s.pubs, s'.pubs, s.builds[j]))
      {
        assert Apart(b, s.builds[j]) && Apart(s.builds[j], b);
        if s.builds[j].running { CommitUndisturbs(s, i, j); }
      }
      OneBuild(s, s', i, Closed(b));
      forall x | x in s'.db.files ensures Accounted(s', x) {
        StillAccounted(s, s', x);
      }
    }
  }

  /** Whoever answered for a file still does, if the rows, the queue and the builds' lists only grew. */
  lemma StillAccounted(s: System, s': System, a: Id)
    requires Accounted(s, a) && s.db.rows.Keys <= s'.db.rows.Keys + s'.db.queue && s.db.queue <= s'.db.queue
    requires s.lost <= s'.lost
    requires forall j {:trigger s.builds[j]} :: j in s.builds && a in s.builds[j].created ==>
             Accounted(s', a) || (j in s'.builds && a in s'.builds[j].created)
    ensures Accounted(s', a)
  {
    if j :| j in s.builds && a in s.builds[j].created {
      assert Accounted(s', a) || (j in s'.builds && a in s'.builds[j].created);
    }
  }

  lemma CompensateKeepsInv(s: System, i: nat, a: Id)
    requires Inv(s)
    ensures Inv(Step(s, Compensate(i, a)))
  {
    var s' := Step(s, Compensate(i, a));
    if i in s.builds && !s.builds[i].running && a in s.builds[i].created {
      var b := s.builds[i];
      var b' := b.(created := b.created - {a});
      forall x | x in s'.db.rows ensures RowOk(s'.db, s'.issued, x) { assert RowOk(s.db, s.issued, x); }
      forall k | k in s'.db.refs ensures RefOk(s'.db, s'.pubs, k) { assert RefOk(s.db, s.pubs, k); }
      forall j | j in s.builds && j != i ensures Apart(b', s.builds[j]) && Apart(s.builds[j], b') &&
        (s.builds[j].running ==> Undisturbed(s.db, s'.db, s.pubs, s'.pubs, s.builds[j]))
      {
        assert Apart(b, s.builds[j]) && Apart(s.builds[j], b);
        if s.builds[j].running { Still(s, j); }
      }
      OneBuild(s, s', i, b');
      forall x | x in s'.db.files ensures Accounted(s', x) {
        StillAccounted(s, s', x);
      }
    }
  }

  /** A build that is over, or dead, leaves; only a dead one leaves files that nobody answers for. */
  lemma DepartureKeepsInv(s: System, i: nat, lost: set<Id>)
    requires Inv(s) && i in s.builds && s.lost + s.builds[i].created <= lost
    ensures Inv(s.(builds := s.builds - {i}, lost := lost))
  {
    var s' := s.(builds := s.builds - {i}, lost := lost);
    forall j | j in s'.builds
      ensures BuildOk(s'.db, s'.pubs, s'.issued, s'.builds[j])
    {
      assert s'.builds[j] == s.builds[j];
    }
    forall j, k | j in s'.builds && k in s'.builds && j != k ensures Apart(s'.builds[j], s'.builds[k]) {
      assert s'.builds[j] == s.builds[j] && s'.builds[k] == s.builds[k];
    }
    forall x | x in s'.db.files ensures Accounted(s', x) {
      StillAccounted(s, s', x);
    }
  }

  /** Shared tables change under builds that stay where they are. */
  lemma TablesStep(s: System, s': System)
    requires BuildsOk(s) && s'.builds == s.builds && s'.issued == s.issued
    requires forall j {:trigger s.builds[j]} :: j in s.builds && s.builds[j].running ==>
      Undisturbed(s.db, s'.db, s.pubs, s'.pubs, s.builds[j])
    ensures BuildsOk(s')
  {
    forall j | j in s'.builds ensures BuildOk(s'.db, s'.pubs, s'.issued, s'.builds[j]) {
      Frame(s.db, s'.db, s.pubs, s'.pubs, s.issued, s'.issued, s.builds[j]);
    }
  }

  lemma StatusKeepsInv(s: System, c: Command)
    requires Inv(s) && (c.Open? || c.Advance?)
    ensures Inv(Step(s, c))
  {
    var s' := Step(s, c);
    if s' != s {
      forall k | k in s'.db.refs ensures RefOk(s'.db, s'.pubs, k) { assert RefOk(s.db, s.pubs, k); }
      forall j | j in s.builds && s.builds[j].running ensures Undisturbed(s.db, s'.db, s.pubs, s'.pubs, s.builds[j]) {
        Still(s, j);
      }
      TablesStep(s, s');
      forall x | x in s'.db.files ensures Accounted(s', x) { StillAccounted(s, s', x); }
    }
  }

  lemma ProcessKeepsInv(s: System, a: Id, works: bool)
    requires Inv(s)
    ensures Inv(Step(s, Process(a, works)))
  {
    var s' := Step(s, Process(a, works));
    if s' != s {
      forall x | x in s'.db.rows ensures RowOk(s'.db, s'.issued, x) { assert RowOk(s.db, s.issued, x); }
      forall k | k in s'.db.refs ensures RefOk(s'.db, s'.pubs, k) { assert RefOk(s.db, s.pubs, k); }
      forall j | j in s.builds && s.builds[j].running ensures Undisturbed(s.db, s'.db, s.pubs, s'.pubs, s.builds[j]) {
        Still(s, j);
      }
      TablesStep(s, s');
      forall x | x in s'.db.files ensures Accounted(s', x) {
        assert Accounted(s, x);
      }
    }
  }

  /** Rows that nobody refers to or has locked move to the queue, with references dropped alongside. */
  lemma DropKeepsInv(s: System, s': System, gone: set<Id>)
    requires Inv(s) && s' == s.(db := s'.db, pubs := s'.pubs)
    requires gone <= s.db.rows.Keys && s'.db.rows == s.db.rows - gone && s'.db.queue == s.db.queue + gone
    requires s'.db.files == s.db.files
    requires forall k :: k in s'.db.refs ==> k in s.db.refs && s'.db.refs[k] == s.db.refs[k] && s'.db.refs[k] !in gone
    requires forall k :: k in s'.db.refs ==> k.0 in s.pubs && k.0 in s'.pubs && s'.pubs[k.0] == s.pubs[k.0]
    requires forall j {:trigger s.builds[j]} :: j in s.builds ==> s.builds[j].locks !! gone
    requires forall j {:trigger s.builds[j]} :: j in s.builds && s.builds[j].running && s.builds[j].pub in s.pubs ==>
      s.builds[j].pub in s'.pubs && s'.pubs[s.builds[j].pub] == s.pubs[s.builds[j].pub]
    ensures Inv(s')
  {
    forall x | x in s'.db.rows ensures RowOk(s'.db, s'.issued, x) { assert RowOk(s.db, s.issued, x); }
    forall k | k in s'.db.refs ensures RefOk(s'.db, s'.pubs, k) { assert RefOk(s.db, s.pubs, k); }
    assert s'.db.queue <= s.issued by {
      forall x | x in gone ensures x in s.issued { assert RowOk(s.db, s.issued, x); }
    }
    forall j | j in s.builds && s.builds[j].running ensures Undisturbed(s.db, s'.db, s.pubs, s'.pubs, s.builds[j]) {
      Still(s, j);
    }
    TablesStep(s, s');
    forall x | x in s'.db.files ensures Accounted(s', x) { StillAccounted(s, s', x); }
  }

  lemma SweepKeepsInv(s: System, a: Id)
    requires Inv(s)
    ensures Inv(Step(s, Sweep(a)))
  {
    if !Locked(s, a) && a in s.db.rows && !Referenced(s.db.refs, a) {
      forall k | k in s.db.refs ensures k.0 in s.pubs { assert RefOk(s.db, s.pubs, k); }
      DropKeepsInv(s, Step(s, Sweep(a)), {a});
    }
  }

  lemma TerminateKeepsInv(s: System, p: Publication)
    requires Inv(s)
    ensures Inv(Step(s, Terminate(p)))
  {
    var s' := Step(s, Terminate(p));
    if p in s.pubs && !Busy(s, p) && !exists a :: a in UsedBy(s.db, p) && Locked(s, a) {
      var gone := Exclusive(s.db, p);
      forall k | k in s'.db.refs ensures k in s.db.refs && k.0 in s.pubs && s'.db.refs[k] !in gone {
        assert RefOk(s.db, s.pubs, k);
        assert Referenced(RefsWithout(s.db.refs, p), s.db.refs[k]);
      }
      forall j | j in s.builds ensures s.builds[j].locks !! gone {
        forall a | a in gone ensures a !in s.builds[j].locks { assert a in UsedBy(s.db, p); }
      }
      DropKeepsInv(s, s', gone);
    }
  }

  lemma StepKeepsInv(s: System, c: Command)
    requires Inv(s)
    ensures Inv(Step(s, c))
  {
    match c
    case Open(_, _) => StatusKeepsInv(s, c);
    case Advance(_) => StatusKeepsInv(s, c);
    case Begin(i, p) => BeginKeepsInv(s, i, p);
    case Reuse(i, key, a) => ReuseKeepsInv(s, i, key, a);
    case Choose(i, key, a) => ChooseKeepsInv(s, i, key, a);
    case Promote(i, stamp) => PromoteKeepsInv(s, i, stamp);
    case Insert(i) => InsertKeepsInv(s, i);
    case LoseRace(i, w) => LoseRaceKeepsInv(s, i, w);
    case Commit(i) => CommitKeepsInv(s, i);
    case Rollback(i) => RollbackKeepsInv(s, i);
    case Crash(i) => if i in s.builds { DepartureKeepsInv(s, i, s.lost + s.builds[i].created); }
    case Compensate(i, a) => CompensateKeepsInv(s, i, a);
    case Finish(i) =>
      if i in s.builds && !s.builds[i].running && s.builds[i].created == {} { DepartureKeepsInv(s, i, s.lost); }
    case Terminate(p) => TerminateKeepsInv(s, p);
    case Process(a, works) => ProcessKeepsInv(s, a, works);
    case Sweep(a) => SweepKeepsInv(s, a);
  }

  lemma {:induction false} RunKeepsInv(s: System, cs: seq<Command>)
    requires Inv(s)
    ensures Inv(Run(s, cs))
  {
    if cs != [] {
      RunKeepsInv(s, cs[..|cs| - 1]);
      StepKeepsInv(Run(s, cs[..|cs| - 1]), cs[|cs| - 1]);
    }
  }

  // ---- what holds over all runs ---------------------------------------------------------------------

  /**
   In every reachable state a referenced artifact has its row and its intact file, also when the reference is still
   inside an open transaction; nothing queued for removal has a row; and no publication is over with references left.
   */
  lemma ReachableArtifacts(cs: seq<Command>)
    ensures var s := Run(Start(), cs);
            && (forall k :: k in s.db.refs ==>
                  s.db.refs[k] in s.db.rows && Intact(s.db, s.db.refs[k]) && s.db.refs[k] !in s.db.queue
                  && k.0 in s.pubs && !s.pubs[k.0].status.Terminal?)
            && (forall i, d :: i in s.builds && d in s.builds[i].refs ==>
                  var a := s.builds[i].refs[d];
                  a !in s.db.queue && a in s.db.files && (a in s.db.rows || a in s.builds[i].rows))
            && s.db.queue !! s.db.rows.Keys
  {
    var s := Run(Start(), cs);
    RunKeepsInv(Start(), cs);
    forall k | k in s.db.refs
      ensures s.db.refs[k] in s.db.rows && RowOk(s.db, s.issued, s.db.refs[k])
              && k.0 in s.pubs && !s.pubs[k.0].status.Terminal?
    {
      assert RefOk(s.db, s.pubs, k);
    }
    forall i, d | i in s.builds && d in s.builds[i].refs
      ensures var a := s.builds[i].refs[d];
              a !in s.db.queue && a in s.db.files && (a in s.db.rows || a in s.builds[i].rows)
    {
      var b := s.builds[i];
      assert BuildOk(s.db, s.pubs, s.issued, b);
      assert PendingRefOk(s.db, b, s.pubs[b.pub].dataset, d);
      if b.refs[d] in b.locks && b.refs[d] in s.db.rows { assert RowOk(s.db, s.issued, b.refs[d]); }
    }
    forall a | a in s.db.rows ensures a !in s.db.queue { assert RowOk(s.db, s.issued, a); }
  }

  /** A reference with the row and file behind it. */
  ghost predicate Holds(s: System, k: (Publication, nat), a: Id, row: Row) {
    k in s.db.refs && s.db.refs[k] == a && a in s.db.rows && s.db.rows[a] == row && a in s.db.files
    && s.db.files[a] == row.stamp
  }

  /** References go only when their publication ends. */
  lemma StepKeepsRef(s: System, c: Command, k: (Publication, nat))
    requires k in s.db.refs && c != Terminate(k.0)
    requires c.Commit? && Idling(s, c.build) ==> s.builds[c.build].pub != k.0
    ensures k in Step(s, c).db.refs && Step(s, c).db.refs[k] == s.db.refs[k]
  {
  }

  /** A row is never rewritten. */
  lemma StepKeepsRow(s: System, c: Command, a: Id)
    requires a in s.db.rows && a in Step(s, c).db.rows
    requires c.Commit? && Idling(s, c.build) ==> a !in s.builds[c.build].rows
    ensures Step(s, c).db.rows[a] == s.db.rows[a]
  {
  }

  /** A transaction that commits brings new rows, for a publication without references. */
  lemma CommitIsNew(s: System, i: nat)
    requires Inv(s) && Idling(s, i)
    ensures !HasRefs(s.db, s.builds[i].pub) && s.builds[i].rows.Keys !! s.db.rows.Keys
  {
    assert BuildOk(s.db, s.pubs, s.issued, s.builds[i]);
  }

  /** No step but the publication's own end touches what it refers to: not its row, not its file. */
  lemma StepKeepsReference(s: System, c: Command, k: (Publication, nat), a: Id, row: Row)
    requires Inv(s) && Holds(s, k, a, row) && c != Terminate(k.0)
    ensures Holds(Step(s, c), k, a, row)
  {
    StepKeepsInv(s, c);
    if c.Commit? && Idling(s, c.build) { CommitIsNew(s, c.build); }
    StepKeepsRef(s, c, k);
    HeldIntact(Step(s, c), k);
    StepKeepsRow(s, c, a);
  }

  lemma HeldIntact(s: System, k: (Publication, nat))
    requires Inv(s) && k in s.db.refs
    ensures s.db.refs[k] in s.db.rows && Intact(s.db, s.db.refs[k])
  {
    assert RefOk(s.db, s.pubs, k);
    assert RowOk(s.db, s.issued, s.db.refs[k]);
  }

  /**
   From any reachable state on, whatever builds, races, releases, retries and sweeps follow: an artifact referenced by a
   publication keeps that reference, its row and its ciphertext until that very publication ends.
   */
  lemma {:induction false} ReferencedArtifactSurvives(s: System, cs: seq<Command>, k: (Publication, nat))
    requires Inv(s) && k in s.db.refs && Terminate(k.0) !in cs
    ensures var a := s.db.refs[k]; a in s.db.rows && Holds(Run(s, cs), k, a, s.db.rows[a])
  {
    var a := s.db.refs[k];
    assert RefOk(s.db, s.pubs, k);
    assert RowOk(s.db, s.issued, a);
    if cs != [] {
      var n := |cs| - 1;
      ReferencedArtifactSurvives(s, cs[..n], k);
      RunKeepsInv(s, cs[..n]);
      assert cs[n] in cs;
      StepKeepsReference(Run(s, cs[..n]), cs[n], k, a, s.db.rows[a]);
    }
  }

  lemma {:induction false} LostOnlyByCrash(cs: seq<Command>)
    requires forall c :: c in cs ==> !c.Crash?
    ensures Run(Start(), cs).lost == {}
  {
    if cs != [] {
      LostOnlyByCrash(cs[..|cs| - 1]);
      assert cs[|cs| - 1] in cs;
    }
  }

  /**
   Without crashes, once no build is under way every file is either a stored artifact's or queued for removal, never
   both.
   */
  lemma NoFileForgotten(cs: seq<Command>)
    requires (forall c :: c in cs ==> !c.Crash?) && Run(Start(), cs).builds == map[]
    ensures var db := Run(Start(), cs).db; forall a :: a in db.files ==> (a in db.rows <==> a !in db.queue)
  {
    var s := Run(Start(), cs);
    RunKeepsInv(Start(), cs);
    LostOnlyByCrash(cs);
    forall a | a in s.db.files ensures a in s.db.rows <==> a !in s.db.queue {
      assert Accounted(s, a);
      if a in s.db.rows { assert RowOk(s.db, s.issued, a); }
    }
  }

  /** A queued removal is never refused for want of safety: its record can always be settled by a working unlink. */
  lemma QueueDrains(cs: seq<Command>, a: Id)
    requires a in Run(Start(), cs).db.queue
    ensures var db := Run(Start(), cs + [Process(a, true)]).db; a !in db.queue && a !in db.files && a !in db.rows
  {
    var s := Run(Start(), cs);
    RunKeepsInv(Start(), cs);
    assert (cs + [Process(a, true)])[..|cs|] == cs;
    QueuedIsNotStored(s, a);
  }

  lemma QueuedIsNotStored(s: System, a: Id)
    requires Inv(s)
    ensures a in s.db.rows ==> a !in s.db.queue
  {
    if a in s.db.rows { assert RowOk(s.db, s.issued, a); }
  }

  // ---- what single steps do -------------------------------------------------------------------------

  /** The row behind a pending reference: one the transaction inserted, or a stored one. */
  function PendingRow(s: System, i: nat, d: nat): Row
    requires i in s.builds && d in s.builds[i].refs
    requires s.builds[i].refs[d] in s.builds[i].rows || s.builds[i].refs[d] in s.db.rows
  {
    var a := s.builds[i].refs[d];
    if a in s.builds[i].rows then s.builds[i].rows[a] else s.db.rows[a]
  }

  lemma PendingHasRow(s: System, i: nat, d: nat)
    requires Inv(s) && i in s.builds && d in s.builds[i].refs
    ensures s.builds[i].refs[d] in s.builds[i].rows || s.builds[i].refs[d] in s.db.rows
  {
    var b := s.builds[i];
    assert BuildOk(s.db, s.pubs, s.issued, b);
    assert PendingRefOk(s.db, b, s.pubs[b.pub].dataset, d);
  }

  /**
   Committing publishes the whole build and nothing else: afterwards the publication refers to exactly the documents the
   build held references for, each to the same artifact; the references of other publications, all rows stored before
   and all files are as they were; and the inserted rows and the removals of beaten candidates are in the tables.
   */
  lemma CommitIsExact(s: System, i: nat)
    requires Inv(s) && Idling(s, i)
    ensures var b, s' := s.builds[i], Step(s, Commit(i));
            && (forall d :: (b.pub, d) in s'.db.refs <==> d in b.refs)
            && (forall d :: d in b.refs ==> s'.db.refs[(b.pub, d)] == b.refs[d])
            && (forall k: (Publication, nat) :: k.0 != b.pub ==> (k in s'.db.refs <==> k in s.db.refs))
            && (forall k :: k in s.db.refs ==> k.0 != b.pub && s'.db.refs[k] == s.db.refs[k])
            && s'.db.rows.Keys == s.db.rows.Keys + b.rows.Keys && s.db.rows.Keys !! b.rows.Keys
            && (forall a :: a in s.db.rows ==> s'.db.rows[a] == s.db.rows[a])
            && (forall a :: a in b.rows ==> s'.db.rows[a] == b.rows[a])
            && s'.db.queue == s.db.queue + b.queue && s'.db.files == s.db.files
            && s'.pubs == s.pubs && s'.lost == s.lost && s'.builds.Keys == s.builds.Keys
            && (forall j :: j in s.builds && j != i ==> s'.builds[j] == s.builds[j])
            && !s'.builds[i].running && s'.builds[i].created == b.created
  {
    CommitIsNew(s, i);
    var b, s' := s.builds[i], Step(s, Commit(i));
    forall d ensures (b.pub, d) in s'.db.refs <==> d in b.refs {
      var k: (Publication, nat) := (b.pub, d);
      assert k in s.db.refs ==> k.0 == b.pub;
    }
  }

  /**
   What a build referred to when it committed is stored from then on, row and ciphertext, until that publication ends,
   whatever builds, races, releases, retries and sweeps follow.
   */
  lemma CommittedBuildSurvives(s: System, i: nat, cs: seq<Command>, d: nat)
    requires Inv(s) && Idling(s, i) && d in s.builds[i].refs && Terminate(s.builds[i].pub) !in cs
    ensures var b := s.builds[i];
            && (b.refs[d] in b.rows || b.refs[d] in s.db.rows)
            && Holds(Run(Step(s, Commit(i)), cs), (b.pub, d), b.refs[d], PendingRow(s, i, d))
            && PendingRow(s, i, d).key.document == d && b.pub in s.pubs
            && PendingRow(s, i, d).key.dataset == s.pubs[b.pub].dataset
  {
    var b, s' := s.builds[i], Step(s, Commit(i));
    assert BuildOk(s.db, s.pubs, s.issued, b);
    assert PendingRefOk(s.db, b, s.pubs[b.pub].dataset, d);
    PendingHasRow(s, i, d);
    CommitIsExact(s, i);
    StepKeepsInv(s, Commit(i));
    assert (b.pub, d) in s'.db.refs;
    ReferencedArtifactSurvives(s', cs, (b.pub, d));
  }

  /** The steps that add a reference to a build. */
  predicate AddsReference(c: Command) {
    c.Reuse? || c.Insert? || c.LoseRace?
  }

  /**
   Such a step, unless it has to wait or is refused, adds one reference, for a document the build had none for and of
   its publication's dataset, to an intact artifact of precisely the content asked for: a stored one, locked from then
   on, or a new row of the build's own. It changes nothing else, except that a beaten candidate is put up for removal.
   */
  lemma AddedReference(s: System, c: Command)
    requires Inv(s) && AddsReference(c) && Step(s, c) != s
    ensures c.build in s.builds && s.builds[c.build].running
    ensures c.Reuse? ==> s.builds[c.build].candidate.Idle?
    ensures !c.Reuse? ==> s.builds[c.build].candidate.Promoted?
    ensures var i, s' := c.build, Step(s, c);
            var b, b' := s.builds[i], s'.builds[i];
            var key := if c.Reuse? then c.key else b.candidate.key;
            var a := if c.Reuse? then c.id else if c.Insert? then b.candidate.id else c.winner;
            && s' == s.(builds := s.builds[i := b'])
            && b.pub in s.pubs && key.dataset == s.pubs[b.pub].dataset
            && key.document !in b.refs && b'.refs == b.refs[key.document := a]
            && a in s.db.files && a !in s.db.queue && b'.candidate.Idle? && b'.created == b.created && b'.pub == b.pub
            && b'.running && b'.rows == (if c.Insert? then b.rows[a := Row(key, s.db.files[a])] else b.rows)
            && b'.locks == (if c.Insert? then b.locks else b.locks + {a})
            && (!c.Insert? ==> a in s.db.rows && s.db.rows[a] == Row(key, s.db.files[a]))
            && b'.queue == (if c.LoseRace? then b.queue + {b.candidate.id} else b.queue)
  {
    var b := s.builds[c.build];
    assert BuildOk(s.db, s.pubs, s.issued, b);
    if !c.Insert? { assert RowOk(s.db, s.issued, if c.Reuse? then c.id else c.winner); }
  }

  /**
   A build gets its document if nobody stored that content or is inserting it: by encrypting and inserting it under any
   unused identity.
   */
  lemma DocumentIsInserted(s: System, i: nat, key: Key, a: Id, stamp: Stamp)
    requires Inv(s) && i in s.builds && s.builds[i].running && s.builds[i].candidate.Idle? && a !in s.issued
    requires key.dataset == s.pubs[s.builds[i].pub].dataset && key.document !in s.builds[i].refs
    requires forall x :: x in s.db.rows ==> s.db.rows[x].key != key
    requires forall j, x :: j in s.builds && j != i && x in s.builds[j].rows ==> s.builds[j].rows[x].key != key
    ensures var s' := Step(Step(Step(s, Choose(i, key, a)), Promote(i, stamp)), Insert(i));
            && i in s'.builds && s'.builds[i].running && s'.builds[i].candidate.Idle?
            && s'.builds[i].pub == s.builds[i].pub
            && s'.builds[i].refs == s.builds[i].refs[key.document := a]
            && s'.builds[i].rows == s.builds[i].rows[a := Row(key, stamp)]
            && s'.db == s.db.(files := s.db.files[a := stamp])
  {
    assert BuildOk(s.db, s.pubs, s.issued, s.builds[i]);
  }

  lemma FreshPublicationBegins(s: System, p: Publication, dataset: string, i: nat)
    requires Inv(s) && p !in s.pubs && i !in s.builds
    ensures var s' := Step(Step(s, Open(p, dataset)), Begin(i, p));
            && i in s'.builds && s'.builds[i] == Build(p, true, {}, Idle, map[], map[], {}, {})
            && p in s'.pubs && s'.pubs[p] == PublicationState(dataset, Building)
            && s'.db == s.db && s'.issued == s.issued && Inv(s')
            && forall j :: j in s'.builds && j != i ==> j in s.builds && s'.builds[j] == s.builds[j]
  {
    StepKeepsInv(s, Open(p, dataset));
    StepKeepsInv(Step(s, Open(p, dataset)), Begin(i, p));
    forall k | k in s.db.refs ensures k.0 != p { assert RefOk(s.db, s.pubs, k); }
    forall j | j in s.builds && s.builds[j].running ensures s.builds[j].pub != p {
      assert BuildOk(s.db, s.pubs, s.issued, s.builds[j]);
    }
  }

  lemma InsertedSurvives(s: System, i: nat, key: Key, a: Id, stamp: Stamp, cs: seq<Command>)
    requires Inv(s) && i in s.builds && s.builds[i].running && s.builds[i].candidate.Idle? && a !in s.issued
    requires Terminate(s.builds[i].pub) !in cs
    requires key.dataset == s.pubs[s.builds[i].pub].dataset && key.document !in s.builds[i].refs
    requires forall x :: x in s.db.rows ==> s.db.rows[x].key != key
    requires forall j, x :: j in s.builds && j != i && x in s.builds[j].rows ==> s.builds[j].rows[x].key != key
    ensures var inserted := Step(Step(Step(s, Choose(i, key, a)), Promote(i, stamp)), Insert(i));
            Holds(Run(Step(inserted, Commit(i)), cs), (s.builds[i].pub, key.document), a, Row(key, stamp))
  {
    DocumentIsInserted(s, i, key, a, stamp);
    StepKeepsInv(s, Choose(i, key, a));
    StepKeepsInv(Step(s, Choose(i, key, a)), Promote(i, stamp));
    var promoted := Step(Step(s, Choose(i, key, a)), Promote(i, stamp));
    StepKeepsInv(promoted, Insert(i));
    CommittedBuildSurvives(Step(promoted, Insert(i)), i, cs, key.document);
  }

  /**
   The life of one document: a new publication is opened, its build encrypts and inserts content that nobody stored or
   is inserting, and commits. Whatever follows, short of that publication's end, its reference leads to a row of
   exactly that content and to the ciphertext promoted for it.
   */
  lemma PublishedDocumentSurvives(
      s: System, p: Publication, i: nat, key: Key, a: Id, stamp: Stamp, cs: seq<Command>)
    requires Inv(s) && p !in s.pubs && i !in s.builds && a !in s.issued && Terminate(p) !in cs
    requires forall x :: x in s.db.rows ==> s.db.rows[x].key != key
    requires forall j, x :: j in s.builds && x in s.builds[j].rows ==> s.builds[j].rows[x].key != key
    ensures var begun := Step(Step(s, Open(p, key.dataset)), Begin(i, p));
            var inserted := Step(Step(Step(begun, Choose(i, key, a)), Promote(i, stamp)), Insert(i));
            Holds(Run(Step(inserted, Commit(i)), cs), (p, key.document), a, Row(key, stamp))
  {
    FreshPublicationBegins(s, p, key.dataset, i);
    InsertedSurvives(Step(Step(s, Open(p, key.dataset)), Begin(i, p)), i, key, a, stamp, cs);
  }

  /** If the content is stored, and no other build has locked its row, the build gets the document by reusing it. */
  lemma DocumentIsReused(s: System, i: nat, a: Id)
    requires Inv(s) && i in s.builds && s.builds[i].running && s.builds[i].candidate.Idle? && a in s.db.rows
    requires s.db.rows[a].key.dataset == s.pubs[s.builds[i].pub].dataset
    requires s.db.rows[a].key.document !in s.builds[i].refs
    requires forall j :: j in s.builds && j != i ==> a !in s.builds[j].locks
    ensures var s' := Step(s, Reuse(i, s.db.rows[a].key, a));
            i in s'.builds && s'.builds[i].refs == s.builds[i].refs[s.db.rows[a].key.document := a] && s'.db == s.db
  {
    assert BuildOk(s.db, s.pubs, s.issued, s.builds[i]);
    assert RowOk(s.db, s.issued, a);
  }

  /** No running build works on the publication, and nobody has locked what it refers to. */
  ghost predicate Free(s: System, p: Publication) {
    && (forall i :: i in s.builds && s.builds[i].running ==> s.builds[i].pub != p)
    && (forall i, k :: i in s.builds && k in s.db.refs && k.0 == p ==> s.db.refs[k] !in s.builds[i].locks)
  }

  /**
   A publication that no build works on or holds artifacts of can end. It is then over, and no reference of it is left;
   an artifact is kept, row and file, exactly if another publication refers to it or nobody did, and is otherwise
   queued for removal.
   */
  lemma TerminateEnds(s: System, p: Publication)
    requires Inv(s) && p in s.pubs && Free(s, p)
    ensures var s' := Step(s, Terminate(p));
            && p in s'.pubs && s'.pubs[p].status.Terminal? && s'.builds == s.builds && s'.db.files == s.db.files
            && (forall q :: q in s.pubs && q != p ==> q in s'.pubs && s'.pubs[q] == s.pubs[q])
            && (forall k :: k in s'.db.refs <==> k in s.db.refs && k.0 != p)
            && (forall k :: k in s'.db.refs ==> s'.db.refs[k] == s.db.refs[k])
            && forall a :: a in s.db.rows ==>
                 (a in s'.db.rows <==>
                    (exists k :: k in s.db.refs && k.0 != p && s.db.refs[k] == a)
                    || !exists k :: k in s.db.refs && s.db.refs[k] == a)
                 && (a in s'.db.rows <==> a !in s'.db.queue)
  {
    var s' := Step(s, Terminate(p));
    forall a | a in UsedBy(s.db, p) ensures !Locked(s, a) {
      var k :| k in s.db.refs && k.0 == p && s.db.refs[k] == a;
    }
    forall a | a in s.db.rows
      ensures (a in s'.db.rows <==>
                 (exists k :: k in s.db.refs && k.0 != p && s.db.refs[k] == a)
                 || !exists k :: k in s.db.refs && s.db.refs[k] == a)
              && (a in s'.db.rows <==> a !in s'.db.queue)
    {
      ReleaseIsExact(s.db, p, a);
      QueuedIsNotStored(s, a);
      if k :| k in s.db.refs && s.db.refs[k] == a { assert k == (k.0, k.1); }
    }
    ReleaseIsExact(s.db, p, 0);
  }

  lemma StepKeepsTerminal(s: System, c: Command, p: Publication)
    requires p in s.pubs && s.pubs[p].status.Terminal?
    ensures p in Step(s, c).pubs && Step(s, c).pubs[p] == s.pubs[p]
  {
  }

  /** A publication that is over stays over, and never refers to anything again. */
  lemma {:induction false} TerminatedForever(s: System, cs: seq<Command>, p: Publication)
    requires Inv(s) && p in s.pubs && s.pubs[p].status.Terminal?
    ensures var s' := Run(s, cs);
            p in s'.pubs && s'.pubs[p] == s.pubs[p] && forall k :: k in s'.db.refs ==> k.0 != p
  {
    if cs != [] {
      TerminatedForever(s, cs[..|cs| - 1], p);
      StepKeepsTerminal(Run(s, cs[..|cs| - 1]), cs[|cs| - 1], p);
    }
    RunKeepsInv(s, cs);
    NoRefsOfTerminal(Run(s, cs), p);
  }

  lemma NoRefsOfTerminal(s: System, p: Publication)
    requires Inv(s) && p in s.pubs && s.pubs[p].status.Terminal?
    ensures forall k :: k in s.db.refs ==> k.0 != p
  {
    forall k | k in s.db.refs ensures k.0 != p { assert RefOk(s.db, s.pubs, k); }
  }

  /** A publication is opened once, builds until it moves on, and then can no longer be built, only ended. */
  lemma StatusMovesOn(s: System, p: Publication, dataset: string, i: nat)
    ensures p !in s.pubs ==> Step(s, Open(p, dataset)) == s.(pubs := s.pubs[p := PublicationState(dataset, Building)])
    ensures p in s.pubs ==> Step(s, Open(p, dataset)) == s
    ensures p in s.pubs && s.pubs[p].status == Building
            && (forall j :: j in s.builds && s.builds[j].running ==> s.builds[j].pub != p) ==>
            var s' := Step(s, Advance(p));
            && s' == s.(pubs := s.pubs[p := PublicationState(s.pubs[p].dataset, Kept)])
            && Step(s', Begin(i, p)) == s' && Step(s', Advance(p)) == s'
  {
  }

  /** An artifact that no publication refers to and no build has locked is swept: its row goes and it is queued. */
  lemma SweepRemoves(s: System, a: Id)
    requires a in s.db.rows && (forall k :: k in s.db.refs ==> s.db.refs[k] != a)
    requires forall i :: i in s.builds ==> a !in s.builds[i].locks
    ensures Step(s, Sweep(a)) == s.(db := s.db.(rows := s.db.rows - {a}, queue := s.db.queue + {a}))
  {
  }

  /** Undoing a build leaves no trace of it in the tables; its files are then queued by its compensation. */
  lemma RollbackIsClean(s: System, i: nat, a: Id)
    requires Inv(s) && i in s.builds && s.builds[i].running && a in s.builds[i].created
    ensures var undone := Step(s, Rollback(i));
            && undone.db == s.db && undone.pubs == s.pubs && i in undone.builds && !undone.builds[i].running
            && undone.builds[i].refs == map[] && undone.builds[i].created == s.builds[i].created
            && var settled := Step(undone, Compensate(i, a));
            && settled.db == s.db.(queue := s.db.queue + {a})
            && i in settled.builds && settled.builds[i].created == s.builds[i].created - {a}
  {
    assert BuildOk(s.db, s.pubs, s.issued, s.builds[i]);
  }
}
