/**
 Encrypted document artifacts shared between publication generations: the stored rows, references, removal queue and
 ciphertext files, and the operations that release, retry and sweep.
 */
module DocumentArtifacts {
  import opened Common

  type Id = nat
  type Publication = nat

  /** What the unique constraint of an artifact row ranges over. */
  datatype Key = Key(dataset: string, document: nat, sha: string)

  /** A file as storage verification sees it. */
  datatype Stamp = Stamp(size: nat, digest: string)

  datatype Row = Row(key: Key, stamp: Stamp)

  datatype Db = Db(
    rows: map<Id, Row>, refs: map<(Publication, nat), Id>, queue: set<Id>, files: map<Id, Stamp>)

  /** Some publication refers to `a`. */
  predicate Referenced(refs: map<(Publication, nat), Id>, a: Id) {
    exists k :: k in refs && refs[k] == a
  }

  function RefsWithout(refs: map<(Publication, nat), Id>, p: Publication): map<(Publication, nat), Id> {
    map k | k in refs && k.0 != p :: refs[k]
  }

  /** The stored artifacts that only `p` refers to. */
  function Exclusive(db: Db, p: Publication): set<Id> {
    set k | k in db.refs && k.0 == p && db.refs[k] in db.rows && !Referenced(RefsWithout(db.refs, p), db.refs[k])
      :: db.refs[k]
  }

  /**
   `release_terminal_document_artifact_references`: drop the references, and delete and queue what became unreachable.
   */
  function ReleaseOf(db: Db, p: Publication): Db {
    Db(db.rows - Exclusive(db, p), RefsWithout(db.refs, p), db.queue + Exclusive(db, p), db.files)
  }

  /** `_process_cleanup_record`; `works` tells whether unlinking succeeds. A missing file counts as removed. */
  function ProcessOf(db: Db, a: Id, works: bool): Db {
    if a !in db.queue || a in db.rows || !works then db
    else db.(queue := db.queue - {a}, files := db.files - {a})
  }

  /** One orphan of `cleanup_unreferenced_document_artifacts`, up to its commit. */
  function SweepOf(db: Db, a: Id): Db {
    if a !in db.rows || Referenced(db.refs, a) then db
    else db.(rows := db.rows - {a}, queue := db.queue + {a})
  }

  // ---- what single operations mean ------------------------------------------------------------------

  /** A release queues exactly the artifacts that no other publication references, and touches nothing else's. */
  lemma ReleaseIsExact(db: Db, p: Publication, a: Id)
    ensures var after := ReleaseOf(db, p);
            && (a in db.rows && a !in after.rows <==>
                  a in db.rows && (exists d :: (p, d) in db.refs && db.refs[(p, d)] == a)
                  && !exists k :: k in db.refs && k.0 != p && db.refs[k] == a)
            && (a in after.queue <==> a in db.queue || (a in db.rows && a !in after.rows))
            && (a in after.rows ==> after.rows[a] == db.rows[a])
            && (forall k :: k in after.refs <==> k in db.refs && k.0 != p)
            && (forall k :: k in after.refs ==> after.refs[k] == db.refs[k])
            && after.files == db.files
  {
    var others := RefsWithout(db.refs, p);
    if k :| k in db.refs && k.0 != p && db.refs[k] == a {
      assert k in others && others[k] == a;
    }
    if d :| (p, d) in db.refs && db.refs[(p, d)] == a {
      assert (p, d).0 == p;
    }
    if a in Exclusive(db, p) {
      var k :| k in db.refs && k.0 == p && db.refs[k] == a;
      assert k == (p, k.1);
    }
  }

  // ---- the loops ------------------------------------------------------------------------------------

  /** The listed artifacts that are stored and unreferenced. */
  function Orphans(db: Db, listing: seq<Id>): set<Id> {
    set a | a in listing && a in db.rows && !Referenced(db.refs, a)
  }

  /** The orphans among the listed artifacts lose their rows and are queued. */
  function SweepAll(db: Db, listing: seq<Id>): Db {
    var gone := Orphans(db, listing);
    db.(rows := db.rows - gone, queue := db.queue + gone)
  }

  lemma SweepAllStep(db: Db, listing: seq<Id>, a: Id)
    ensures SweepAll(db, listing + [a]) == SweepOf(SweepAll(db, listing), a)
    ensures |Orphans(db, listing + [a])| ==
            |Orphans(db, listing)| + if a in SweepAll(db, listing).rows && !Referenced(db.refs, a) then 1 else 0
  {
    var gone := Orphans(db, listing);
    assert Orphans(db, listing + [a]) == if a in db.rows && !Referenced(db.refs, a) then gone + {a} else gone;
    if a in db.rows && !Referenced(db.refs, a) {
      assert db.rows - gone - {a} == db.rows - (gone + {a});
      assert db.queue + gone + {a} == db.queue + (gone + {a});
      if a in gone { assert gone + {a} == gone; }
    }
  }

  /** The listed records that can be settled: still queued, without a row, and not stuck on an unlinkable file. */
  function Settled(db: Db, listing: seq<Id>, stuck: set<Id>): set<Id> {
    set a | a in listing && a in db.queue && a !in db.rows && a !in stuck
  }

  function RetryAll(db: Db, listing: seq<Id>, stuck: set<Id>): Db {
    db.(queue := db.queue - Settled(db, listing, stuck), files := db.files - Settled(db, listing, stuck))
  }

  lemma RetryAllStep(db: Db, listing: seq<Id>, stuck: set<Id>, a: Id)
    ensures RetryAll(db, listing + [a], stuck) == ProcessOf(RetryAll(db, listing, stuck), a, a !in stuck)
    ensures |Settled(db, listing + [a], stuck)| ==
            |Settled(db, listing, stuck)| + if a in RetryAll(db, listing, stuck).queue && a !in db.rows && a !in stuck
                then 1 else 0
  {
    var done := Settled(db, listing, stuck);
    var fits := a in db.queue && a !in db.rows && a !in stuck;
    assert Settled(db, listing + [a], stuck) == if fits then done + {a} else done;
    if fits {
      assert db.queue - done - {a} == db.queue - (done + {a});
      assert db.files - done - {a} == db.files - (done + {a});
      if a in done { assert done + {a} == done; }
    }
  }

  /** The orphans are swept, then their files removed unless stuck. */
  function CollectAll(db: Db, listing: seq<Id>, stuck: set<Id>): Db {
    Collected(db, Orphans(db, listing), stuck)
  }

  function Collected(db: Db, gone: set<Id>, stuck: set<Id>): Db {
    Db(db.rows - gone, db.refs, db.queue - (gone - stuck) + (gone * stuck), db.files - (gone - stuck))
  }

  lemma CollectOne(db: Db, gone: set<Id>, stuck: set<Id>, a: Id)
    requires a in db.rows && a !in gone && !Referenced(db.refs, a)
    ensures Collected(db, gone + {a}, stuck) == ProcessOf(SweepOf(Collected(db, gone, stuck), a), a, a !in stuck)
  {
    var next := ProcessOf(SweepOf(Collected(db, gone, stuck), a), a, a !in stuck);
    assert next.rows == db.rows - (gone + {a});
    if a in stuck {
      assert gone + {a} - stuck == gone - stuck && (gone + {a}) * stuck == gone * stuck + {a};
    } else {
      assert gone + {a} - stuck == gone - stuck + {a} && (gone + {a}) * stuck == gone * stuck;
      assert next.queue == db.queue - (gone - stuck + {a}) + (gone * stuck);
      assert next.files == db.files - (gone - stuck + {a});
    }
  }

  lemma CollectAllStep(db: Db, listing: seq<Id>, stuck: set<Id>, a: Id)
    ensures var prior := CollectAll(db, listing, stuck);
            && CollectAll(db, listing + [a], stuck) ==
               (if a in prior.rows && !Referenced(db.refs, a) then ProcessOf(SweepOf(prior, a), a, a !in stuck)
                   else prior)
            && |Orphans(db, listing + [a])| ==
               |Orphans(db, listing)| + if a in prior.rows && !Referenced(db.refs, a) then 1 else 0
  {
    var gone := Orphans(db, listing);
    var prior := CollectAll(db, listing, stuck);
    var fits := a in db.rows && !Referenced(db.refs, a);
    assert Orphans(db, listing + [a]) == if fits then gone + {a} else gone;
    if fits {
      if a in gone {
        assert gone + {a} == gone;
      } else {
        CollectOne(db, gone, stuck, a);
      }
    }
  }

  datatype ReleaseError = NotTerminal

  /** The database tables and the ciphertext directory. */
  class ArtifactStore {
    var db: Db

    constructor (db: Db)
      ensures this.db == db
    {
      this.db := db;
    }

    /** `release_terminal_document_artifact_references`, returning how many artifacts were queued. */
    method Release(p: Publication, terminal: bool) returns (r: Result<nat, ReleaseError>)
      modifies this
      ensures r.Ok? <==> terminal
      ensures r.Ok? ==> db == ReleaseOf(old(db), p) && r.value == |Exclusive(old(db), p)|
      ensures r.Err? ==> db == old(db)
    {
      if !terminal { return Err(NotTerminal); }
      ghost var before := db;
      var ids := UsedBy(db, p);
      if ids == {} {
        NothingToRelease(db, p);
        return Ok(0);
      }
      var artifacts := Ordered(ids * db.rows.Keys);
      db := db.(refs := RefsWithout(db.refs, p));
      var queued := DropUnreferenced(artifacts);
      ReleasedIsExclusive(before, p, artifacts);
      r := Ok(queued);
    }

    /** The loop of the release: each artifact nobody refers to any more is deleted and its removal scheduled. */
    method DropUnreferenced(artifacts: seq<Id>) returns (queued: nat)
      modifies this
      ensures db == SweepAll(old(db), artifacts) && queued == |Orphans(old(db), artifacts)|
    {
      queued := 0;
      for i := 0 to |artifacts|
        invariant db == SweepAll(old(db), artifacts[..i]) && queued == |Orphans(old(db), artifacts[..i])|
      {
        var a := artifacts[i];
        assert artifacts[..i + 1] == artifacts[..i] + [a];
        SweepAllStep(old(db), artifacts[..i], a);
        if !Referenced(db.refs, a) && a in db.rows {
          db := db.(rows := db.rows - {a});
          db := db.(queue := db.queue + {a});
          queued := queued + 1;
        }
      }
      assert artifacts[..|artifacts|] == artifacts;
    }

    /** `_process_cleanup_record`. */
    method Process(a: Id, works: bool) returns (done: bool)
      modifies this
      ensures db == ProcessOf(old(db), a, works)
      ensures done <==> a in old(db).queue && a !in db.rows && works
    {
      if a !in db.queue || a in db.rows || !works { return false; }
      db := db.(files := db.files - {a});
      db := db.(queue := db.queue - {a});
      done := true;
    }

    /**
     The first loop of `cleanup_unreferenced_document_artifacts`, for any listing of queue rows, however stale: exactly
     the listed records that are still queued, have no row and whose file can be unlinked are settled.
     */
    method RetryQueue(listing: seq<Id>, stuck: set<Id>) returns (processed: nat)
      modifies this
      ensures db == RetryAll(old(db), listing, stuck) && processed == |Settled(old(db), listing, stuck)|
    {
      processed := 0;
      for i := 0 to |listing|
        invariant db == RetryAll(old(db), listing[..i], stuck) && processed == |Settled(old(db), listing[..i], stuck)|
      {
        assert listing[..i + 1] == listing[..i] + [listing[i]];
        RetryAllStep(old(db), listing[..i], stuck, listing[i]);
        var done := Process(listing[i], listing[i] !in stuck);
        if done { processed := processed + 1; }
      }
      assert listing[..|listing|] == listing;
    }

    /**
     The second loop: every listed artifact that is stored and unreferenced loses its row; its file goes with it, unless
     unlinking fails, in which case the removal stays queued. Each removal is attempted right after its commit.
     */
    method SweepOrphans(listing: seq<Id>, stuck: set<Id>) returns (removed: nat)
      modifies this
      ensures db == CollectAll(old(db), listing, stuck) && removed == |Orphans(old(db), listing)|
    {
      removed := 0;
      for i := 0 to |listing|
        invariant db == CollectAll(old(db), listing[..i], stuck) && removed == |Orphans(old(db), listing[..i])|
      {
        var a := listing[i];
        assert listing[..i + 1] == listing[..i] + [a];
        CollectAllStep(old(db), listing[..i], stuck, a);
        if a in db.rows && !Referenced(db.refs, a) {
          db := SweepOf(db, a);
          var _ := Process(a, a !in stuck);
          removed := removed + 1;
        }
      }
      assert listing[..|listing|] == listing;
    }
  }

  function UsedBy(db: Db, p: Publication): set<Id> {
    set k | k in db.refs && k.0 == p :: db.refs[k]
  }

  lemma NothingToRelease(db: Db, p: Publication)
    requires UsedBy(db, p) == {}
    ensures ReleaseOf(db, p) == db && Exclusive(db, p) == {}
  {
    forall k | k in db.refs ensures k.0 != p {
      var a := db.refs[k];
      assert k.0 == p ==> a in UsedBy(db, p);
    }
    assert RefsWithout(db.refs, p) == db.refs;
  }

  lemma ReleasedIsExclusive(db: Db, p: Publication, artifacts: seq<Id>)
    requires forall a :: a in artifacts <==> a in UsedBy(db, p) * db.rows.Keys
    ensures var start := db.(refs := RefsWithout(db.refs, p));
            Orphans(start, artifacts) == Exclusive(db, p) && SweepAll(start, artifacts) == ReleaseOf(db, p)
  {
    var start := db.(refs := RefsWithout(db.refs, p));
    forall a ensures a in Orphans(start, artifacts) <==> a in Exclusive(db, p) {
      if a in Exclusive(db, p) {
        assert a in UsedBy(db, p);
        assert a in artifacts;
      }
    }
  }
}
