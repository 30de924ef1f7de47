/**
 A document batch as a whole: agreement of apply with the preview, what staging, review and edits by others have to do
 with it, the fixpoint reached by applying, and how one import leads to the next.
 */
module DocumentBatch {
  import opened Common
  import opened DocumentImport
  import opened DocumentReview
  import opened DocumentVisitors
  import opened DocumentApply

  ghost predicate FreshNames(docs: Docs, draws: seq<nat>) {
    && (forall j :: 0 <= j < |draws| ==> draws[j] !in docs)
    && (forall i, j :: 0 <= i < j < |draws| ==> draws[i] != draws[j])
  }

  /** Rows of one identity key are deactivations that match nothing. */
  ghost predicate RowsApart(domain: Domain, rows: seq<Row>, hits: seq<Option<nat>>)
    requires |hits| == |rows|
  {
    forall i, j {:trigger rows[i], rows[j]} ::
      0 <= i < |rows| && 0 <= j < |rows| && i != j && RowKey(domain, rows[i]) == RowKey(domain, rows[j]) ==>
      rows[i].action.Deactivate? && hits[i].None?
  }

  /** A job for rows that are apart, looked up in the current documents. */
  ghost predicate Ready(job: Job, st: State, pick: Pick) {
    && |job.draws| == |job.rows| && job.hits == Lookups(job.domain, pick, st.docs, job.rows) && Picks(pick)
    && RowsApart(job.domain, job.rows, job.hits) && OwnOutputs(job.rows) && FreshNames(st.docs, job.draws)
  }

  lemma HitIs(job: Job, st: State, pick: Pick, j: nat)
    requires Ready(job, st, pick) && j < |job.rows|
    ensures job.hits[j] == Find(job.domain, pick, st.docs, RowKey(job.domain, job.rows[j]))
    ensures job.hits[j].Some? <==> Holders(job.domain, st.docs, RowKey(job.domain, job.rows[j])) != {}
    ensures job.hits[j].Some? ==>
              job.hits[j].value in st.docs
              && DocKey(job.domain, st.docs[job.hits[j].value]) == RowKey(job.domain, job.rows[j])
  {
    FindIsHolder(job.domain, pick, st.docs, RowKey(job.domain, job.rows[j]));
  }

  lemma RowsDiffer(job: Job, st: State, pick: Pick, i: nat, j: nat)
    requires Ready(job, st, pick) && i < |job.rows| && j < |job.rows| && i != j
    ensures job.rows[i].action.Upsert? || job.hits[i].Some? ==>
            RowKey(job.domain, job.rows[i]) != RowKey(job.domain, job.rows[j])
    ensures job.draws[i] != job.draws[j]
    ensures job.rows[i].staging.Some? ==> job.rows[i].staging != job.rows[j].staging
  {
    if i < j { } else { assert j < i; }
  }

  lemma ReadyIsSetup(job: Job, st: State, pick: Pick)
    requires Ready(job, st, pick)
    ensures Setup(job, st)
  {
    forall i, j | 0 <= i < |job.rows| && 0 <= j < |job.rows| && i != j ensures Separate(job, i, j) {
      RowsDiffer(job, st, pick, i, j);
      HitIs(job, st, pick, i);
      HitIs(job, st, pick, j);
    }
    forall j | 0 <= j < |job.rows| ensures Placed(job, st.docs, j) { HitIs(job, st, pick, j); }
  }

  // ---- agreement with the preview -------------------------------------------------------------------

  datatype Tally = Tally(add: nat, update: nat, deactivate: nat, same: nat, skipped: nat)

  function Tallied(t: Tally, v: Verdict): Tally {
    match v
    case Create => t.(add := t.add + 1)
    case Replace => t.(update := t.update + 1)
    case Merge => t.(update := t.update + 1)
    case Withdraw => t.(deactivate := t.deactivate + 1)
    case Skip => t.(skipped := t.skipped + 1)
    case Keep => t.(same := t.same + 1)
  }

  function TallyOf(vs: seq<Verdict>, n: nat): Tally
    requires n <= |vs|
  {
    if n == 0 then Tally(0, 0, 0, 0, 0) else Tallied(TallyOf(vs, n - 1), vs[n - 1])
  }

  /** The preview's counts and the loop's counts agree, a skipped update having been proposed. */
  ghost predicate Agree(c: Counts, t: Tally) {
    c.add == t.add && c.update == t.update + t.skipped && c.deactivate == t.deactivate && c.same == t.same
  }

  lemma CountStep(c: Counts, t: Tally, p: Proposal, v: Verdict)
    requires Agree(c, t) && VerdictProposal(v) == p
    ensures Agree(Counted(c, p), Tallied(t, v))
  {
  }

  /** A granted row gets what the preview proposed; a row is undecided exactly when its proposed update is. */
  lemma VerdictProposes(job: Job, st: State, j: nat)
    requires Sized(job) && j < |job.rows|
    ensures var p := Proposals(job.domain, st.docs, job.rows, job.hits)[j];
            && (VerdictOn(job, st, j).Ok? ==> VerdictProposal(VerdictOn(job, st, j).value) == p)
            && (VerdictOn(job, st, j) == Err(Undecided) <==> p.Update? && DecisionFor(job.decisions, job.hits[j]).None?)
  {
    VerdictMatchesProposal(job.domain, DocAt(st.docs, job.hits[j]), DecisionFor(job.decisions, job.hits[j]), st.staged,
        job.rows[j]);
  }

  lemma {:induction false} CountsAgree(ps: seq<Proposal>, hits: seq<Option<nat>>, vs: seq<Verdict>, n: nat)
    requires n <= |vs| == |ps| == |hits| && forall j :: 0 <= j < |vs| ==> VerdictProposal(vs[j]) == ps[j]
    ensures Agree(Summed(ps, hits, n).0, TallyOf(vs, n))
  {
    if n > 0 {
      CountsAgree(ps, hits, vs, n - 1);
      CountStep(Summed(ps, hits, n - 1).0, TallyOf(vs, n - 1), ps[n - 1], vs[n - 1]);
    }
  }

  /** Every document on the review list has a decision. */
  ghost predicate AllDecided(review: seq<nat>, decisions: Decisions) {
    forall i :: 0 <= i < |review| ==> review[i] in decisions
  }

  lemma DecidedSnoc(review: seq<nat>, k: nat, decisions: Decisions)
    ensures AllDecided(review + [k], decisions) <==> AllDecided(review, decisions) && k in decisions
  {
    var all := review + [k];
    if AllDecided(all, decisions) {
      forall i | 0 <= i < |review| ensures review[i] in decisions { assert all[i] == review[i]; }
      assert all[|review|] == k;
    }
  }

  predicate DecidedAt(p: Proposal, hit: Option<nat>, decisions: Decisions) {
    p.Update? ==> DecisionFor(decisions, hit).Some?
  }

  lemma {:induction false} DecidedRows(ps: seq<Proposal>, hits: seq<Option<nat>>, decisions: Decisions, n: nat)
    requires n <= |ps| == |hits| && UpdatesHit(ps, hits)
    ensures AllDecided(Summed(ps, hits, n).1, decisions) <==> forall j :: 0 <= j < n ==>
            DecidedAt(ps[j], hits[j], decisions)
  {
    if n > 0 {
      DecidedRows(ps, hits, decisions, n - 1);
      if ps[n - 1].Update? { DecidedSnoc(Summed(ps, hits, n - 1).1, hits[n - 1].value, decisions); }
    }
  }

  /** The sanitised outputs that were staged are all still there. */
  ghost predicate OutputsIntact(rows: seq<Row>, staged: map<string, string>) {
    forall j {:trigger OutputOk(staged, rows[j])} :: 0 <= j < |rows| && rows[j].staging.Some? ==>
        OutputOk(staged, rows[j])
  }

  /** Carrying out row `j` takes a sanitised PDF. */
  predicate NeedsOutput(job: Job, docs: Docs, j: nat)
    requires Sized(job) && j < |job.rows|
  {
    var current := DocAt(docs, job.hits[j]);
    job.rows[j].action.Upsert?
    && (current.None?
        || (ContentChanged(current.value, job.rows[j]) && DecisionFor(job.decisions, job.hits[j]) == Some(Approved)))
  }

  /** No row is asked for an output it was never given. */
  ghost predicate AllSupplied(job: Job, docs: Docs)
    requires Sized(job)
  {
    forall j {:trigger NeedsOutput(job, docs, j)} :: 0 <= j < |job.rows| && NeedsOutput(job, docs, j) ==>
        job.rows[j].staging.Some?
  }

  lemma GrantedIff(job: Job, st: State, j: nat)
    requires Sized(job) && OutputsIntact(job.rows, st.staged) && j < |job.rows|
    ensures Granted(job, st, j) <==>
            DecidedAt(Proposals(job.domain, st.docs, job.rows, job.hits)[j], job.hits[j], job.decisions)
            && (NeedsOutput(job, st.docs, j) ==> job.rows[j].staging.Some?)
    ensures VerdictOn(job, st, j) == Err(OutputMissing) <==> NeedsOutput(job, st.docs, j) && job.rows[j].staging.None?
  {
    VerdictProposes(job, st, j);
    assert job.rows[j].staging.Some? ==> OutputOk(st.staged, job.rows[j]);
  }

  lemma VerdictsProposed(job: Job, st: State, st': State, vs: seq<Verdict>)
    requires Progress(job, st, st', vs) && |vs| == |job.rows|
    ensures forall j :: 0 <= j < |vs| ==>
            VerdictProposal(vs[j]) == Proposals(job.domain, st.docs, job.rows, job.hits)[j]
  {
    forall j | 0 <= j < |vs| ensures VerdictProposal(vs[j]) == Proposals(job.domain, st.docs, job.rows, job.hits)[j] {
      assert Done(job, st, st', j, vs[j]);
      VerdictProposes(job, st, j);
    }
  }

  /** All rows are granted exactly when every update is decided and every output asked for was given. */
  lemma GrantedIffDecided(job: Job, st: State)
    requires Sized(job) && OutputsIntact(job.rows, st.staged)
    ensures var ps := Proposals(job.domain, st.docs, job.rows, job.hits);
            (forall j {:trigger Granted(job, st, j)} :: 0 <= j < |job.rows| ==> Granted(job, st, j)) <==>
            AllDecided(Summed(ps, job.hits, |job.rows|).1, job.decisions) && AllSupplied(job, st.docs)
  {
    var n, ps := |job.rows|, Proposals(job.domain, st.docs, job.rows, job.hits);
    ProposalsHit(job.domain, st.docs, job.rows, job.hits);
    DecidedRows(ps, job.hits, job.decisions, n);
    forall j | 0 <= j < n
      ensures Granted(job, st, j) <==>
              DecidedAt(ps[j], job.hits[j], job.decisions)
              && (NeedsOutput(job, st.docs, j) ==> job.rows[j].staging.Some?)
    {
      GrantedIff(job, st, j);
    }
    if forall j {:trigger Granted(job, st, j)} :: 0 <= j < n ==> Granted(job, st, j) {
      forall j | 0 <= j < n
        ensures DecidedAt(ps[j], job.hits[j], job.decisions)
        ensures NeedsOutput(job, st.docs, j) ==> job.rows[j].staging.Some?
      {
        assert Granted(job, st, j);
      }
    }
  }

  /** A loop through granted rows ends with the counts of their proposals. */
  lemma GrantedCounts(job: Job, st: State)
    requires Setup(job, st)
    requires forall j {:trigger Granted(job, st, j)} :: 0 <= j < |job.rows| ==> Granted(job, st, j)
    ensures var n, ps := |job.rows|, Proposals(job.domain, st.docs, job.rows, job.hits);
            var r := Applied(job, st, n);
            r.Ok? && |r.value.1| == n && Agree(Summed(ps, job.hits, n).0, TallyOf(r.value.1, n))
  {
    var n := |job.rows|;
    FollowsPlan(job, st, n);
    VerdictsProposed(job, st, Applied(job, st, n).value.0, Applied(job, st, n).value.1);
    CountsAgree(Proposals(job.domain, st.docs, job.rows, job.hits), job.hits, Applied(job, st, n).value.1, n);
  }

  /** A row that is refused is undecided if the outputs asked for were given, and lacks its output if all is decided. */
  lemma RefusedFor(job: Job, st: State, k: nat)
    requires Sized(job) && OutputsIntact(job.rows, st.staged) && k < |job.rows| && !Granted(job, st, k)
    ensures var ps, e := Proposals(job.domain, st.docs, job.rows, job.hits), VerdictOn(job, st, k).error;
            && (AllSupplied(job, st.docs) ==> e == Undecided)
            && (AllDecided(Summed(ps, job.hits, |job.rows|).1, job.decisions) ==> e == OutputMissing)
  {
    GrantedIff(job, st, k);
    ProposalsHit(job.domain, st.docs, job.rows, job.hits);
    DecidedRows(Proposals(job.domain, st.docs, job.rows, job.hits), job.hits, job.decisions, |job.rows|);
  }

  lemma SetupApplies(job: Job, st: State)
    requires Setup(job, st) && OutputsIntact(job.rows, st.staged)
    ensures var n, ps := |job.rows|, Proposals(job.domain, st.docs, job.rows, job.hits);
            var (counts, review) := Summed(ps, job.hits, n);
            var r := Applied(job, st, n);
            && (r.Ok? <==> AllDecided(review, job.decisions) && AllSupplied(job, st.docs))
            && (r.Ok? ==> |r.value.1| == n && Agree(counts, TallyOf(r.value.1, n)))
            && (r.Err? && AllSupplied(job, st.docs) ==> r.error == Undecided)
            && (r.Err? && AllDecided(review, job.decisions) ==> r.error == OutputMissing)
  {
    var n, k := |job.rows|, StopsAt(job, st, |job.rows|);
    GrantedIffDecided(job, st);
    AppliesExactly(job, st);
    StopsAtFirst(job, st, n);
    if k == n { GrantedCounts(job, st); } else { RefusedFor(job, st, k); }
  }

  /**
   With the staged outputs intact, a batch applies exactly when every proposed update is decided and no row is asked
   for an output it was never given. Its counts are then the preview's, each proposed update either carried out or
   skipped.
   */
  lemma AppliesIffDecided(job: Job, st: State, pick: Pick)
    requires Ready(job, st, pick) && OutputsIntact(job.rows, st.staged)
    ensures var n, (counts, review) := |job.rows|, Preview(job.domain, pick, st.docs, job.rows);
            var r := Applied(job, st, n);
            && (r.Ok? <==> AllDecided(review, job.decisions) && AllSupplied(job, st.docs))
            && (r.Ok? ==> |r.value.1| == n && Agree(counts, TallyOf(r.value.1, n)))
            && (r.Err? && AllSupplied(job, st.docs) ==> r.error == Undecided)
            && (r.Err? && AllDecided(review, job.decisions) ==> r.error == OutputMissing)
  {
    ReadyIsSetup(job, st, pick);
    SetupApplies(job, st);
  }

  // ---- reused content -------------------------------------------------------------------------------

  /** The rows without an output are, for these documents, rows whose content is stored already. */
  ghost predicate ReuseHolds(domain: Domain, pick: Pick, docs: Docs, rows: seq<Row>) {
    forall j {:trigger rows[j]} :: 0 <= j < |rows| && rows[j].action.Upsert? && rows[j].staging.None? ==>
        Reused(domain, pick, docs, rows[j])
  }

  /** No decision can make a row ask for an output it was never given, exactly when the reuse still holds. */
  lemma SuppliedIffReuseHolds(job: Job, st: State, pick: Pick)
    requires Ready(job, st, pick)
    ensures (forall ds: Decisions :: AllSupplied(job.(decisions := ds), st.docs)) <==>
            ReuseHolds(job.domain, pick, st.docs, job.rows)
  {
    if ReuseHolds(job.domain, pick, st.docs, job.rows) {
      forall ds: Decisions
        ensures AllSupplied(job.(decisions := ds), st.docs)
      {
        ReuseSupplies(job.(decisions := ds), st.docs, pick);
      }
    } else {
      var j :| 0 <= j < |job.rows| && job.rows[j].action.Upsert? && job.rows[j].staging.None?
               && !Reused(job.domain, pick, st.docs, job.rows[j]);
      HitIs(job, st, pick, j);
      var approving := job.(decisions := if job.hits[j].Some? then map[job.hits[j].value := Approved] else map[]);
      assert NeedsOutput(approving, st.docs, j);
      assert !AllSupplied(approving, st.docs);
    }
  }

  lemma ReuseSupplies(job: Job, docs: Docs, pick: Pick)
    requires Sized(job) && job.hits == Lookups(job.domain, pick, docs, job.rows)
    requires ReuseHolds(job.domain, pick, docs, job.rows)
    ensures AllSupplied(job, docs)
  {
    forall j | 0 <= j < |job.rows| && NeedsOutput(job, docs, j) ensures job.rows[j].staging.Some? {
      assert job.hits[j] == Find(job.domain, pick, docs, RowKey(job.domain, job.rows[j]));
    }
  }

  /**
   As long as the baseline holds, the reuse holds now exactly if it held when the baseline was taken: it is enough to
   look there.
   */
  lemma ReuseSettledByBaseline(domain: Domain, t: Table, p: Pick, now: Table, q: Pick, pick: Pick, rows: seq<Row>)
    requires Stamped(t) && Since(t, now) && Picks(p) && Picks(q) && Picks(pick) && UniqueRows(domain, now.docs, rows)
    requires Baseline(domain, p, t.docs) == Baseline(domain, q, now.docs)
    ensures ReuseHolds(domain, pick, now.docs, rows) <==> ReuseHolds(domain, p, t.docs, rows)
  {
    forall j | 0 <= j < |rows| ensures Reused(domain, pick, now.docs, rows[j]) <==> Reused(domain, p, t.docs, rows[j]) {
      var key := RowKey(domain, rows[j]);
      assert UniqueAt(domain, now.docs, key);
      BaselineNames(domain, t, p, now, q, key);
      FindIsHolder(domain, q, now.docs, key);
      if Find(domain, q, now.docs, key).Some? {
        FindUnique(domain, pick, now.docs, key, Find(domain, q, now.docs, key).value);
      }
    }
  }

  /** If no edit came between staging and the baseline, and the keys of the rows are unique, the reuse held there. */
  lemma UneditedReuseHolds(domain: Domain, p0: Pick, p: Pick, docs: Docs, offered: seq<Row>)
    requires Picks(p0) && Picks(p) && Offered(offered) && UniqueRows(domain, docs, offered)
    ensures ReuseHolds(domain, p, docs, Prepared(domain, p0, docs, offered))
  {
    var rows := Prepared(domain, p0, docs, offered);
    forall j | 0 <= j < |rows| && rows[j].action.Upsert? && rows[j].staging.None?
      ensures Reused(domain, p, docs, rows[j])
    {
      var key := RowKey(domain, offered[j]);
      assert Reused(domain, p0, docs, offered[j]) && UniqueAt(domain, docs, key);
      FindIsHolder(domain, p0, docs, key);
      FindUnique(domain, p, docs, key, Find(domain, p0, docs, key).value);
    }
  }

  // ---- the whole way --------------------------------------------------------------------------------

  /**
   How a batch comes about: documents as staging finds them, edits, the baseline, more edits, the first preview. Each
   of the three queries makes its own choice.
   */
  datatype Intake = Intake(
    domain: Domain, found: Table, staging: Pick, before: seq<Edit>, baseline: Pick, between: seq<Edit>, first: Pick,
    offered: seq<Row>)

  function AtBaseline(i: Intake): Table {
    EditRun(i.found, i.before)
  }

  function StagedRows(i: Intake): seq<Row> {
    Prepared(i.domain, i.staging, i.found.docs, i.offered)
  }

  function Opened(i: Intake): Session {
    var t := EditRun(AtBaseline(i), i.between);
    Session(t, NewBatch(i.domain, i.first, t.docs, StagedRows(i)), t, i.first)
  }

  ghost predicate IntakeOk(i: Intake) {
    Stamped(i.found) && Picks(i.staging) && Picks(i.baseline) && Picks(i.first) && Offered(i.offered)
    && OwnOutputs(i.offered)
  }

  /**
   The batch at the end of a session, as `apply_preview` meets it: the baseline still holds, by a query of its own.
   */
  ghost predicate Applies(i: Intake, end: Session, job: Job, st: State, check: Pick, pick: Pick) {
    && st.docs == end.table.docs
    && Baseline(i.domain, i.baseline, AtBaseline(i).docs) == Baseline(i.domain, check, st.docs)
    && Picks(check) && Picks(pick) && |job.draws| == |job.rows| && FreshNames(st.docs, job.draws)
    && job.domain == i.domain && job.rows == end.batch.rows && job.decisions == end.batch.decisions
    && job.hits == Lookups(i.domain, pick, st.docs, job.rows) && PackageApart(i.domain, st.docs, i.offered)
    && UniqueRows(i.domain, st.docs, job.rows) && OutputsIntact(job.rows, st.staged)
  }

  lemma OpenedOk(i: Intake)
    requires IntakeOk(i)
    ensures SessionOk(i.domain, AtBaseline(i), Opened(i)) && Stamped(AtBaseline(i)) && OwnOutputs(StagedRows(i))
  {
    EditRunSince(i.found, i.before);
    EditRunSince(AtBaseline(i), i.between);
  }

  lemma CoordinatesKeepOutputs(rows: seq<Row>, rows': seq<Row>)
    requires SameButCoordinates(rows, rows') && OwnOutputs(rows)
    ensures OwnOutputs(rows')
  {
  }

  lemma CoordinatesKeepReuse(domain: Domain, pick: Pick, docs: Docs, rows: seq<Row>, rows': seq<Row>)
    requires SameButCoordinates(rows, rows')
    ensures ReuseHolds(domain, pick, docs, rows) <==> ReuseHolds(domain, pick, docs, rows')
  {
    forall j | 0 <= j < |rows| ensures Reused(domain, pick, docs, rows[j]) <==> Reused(domain, pick, docs, rows'[j]) {
      assert RowKey(domain, rows'[j]) == RowKey(domain, rows[j]);
    }
  }

  /**
   A batch staged, previewed, reviewed in any manner among edits by others, and applied while the baseline holds and
   no two documents share a row's key. If reuse held at the baseline and every document that had a row's key at the
   last preview gave the row what it gets now, it applies exactly when the reviewer decided every proposed update, it
   never misses a PDF, and its counts are those the reviewer saw.
   */
  lemma ReviewedBatchApplies(i: Intake, events: seq<Event>, job: Job, st: State, check: Pick, pick: Pick)
    requires IntakeOk(i) && Lawful(events)
    requires Applies(i, Course(i.domain, Opened(i), events), job, st, check, pick)
    requires ReuseHolds(i.domain, i.baseline, AtBaseline(i).docs, StagedRows(i))
    requires AllGiveSame(i.domain, Course(i.domain, Opened(i), events).seen.docs, st.docs, pick, job.rows)
    ensures Ready(job, st, pick)
    ensures var b := Course(i.domain, Opened(i), events).batch;
            var r := Applied(job, st, |job.rows|);
            && (r.Ok? <==> AllDecided(b.review, b.decisions))
            && (r.Err? ==> r.error == Undecided)
            && (r.Ok? ==> |r.value.1| == |job.rows| && Agree(b.counts, TallyOf(r.value.1, |job.rows|)))
  {
    var end := Course(i.domain, Opened(i), events);
    SessionReady(i, events, job, st, check, pick);
    PreviewedAlike(i.domain, AtBaseline(i), i.baseline, end.seen, end.choice, end.table, check, pick, job.rows);
    ReuseNow(i, events, job, st, check, pick);
    ReuseSupplies(job, st.docs, pick);
    AppliesIffDecided(job, st, pick);
  }

  lemma SessionReady(i: Intake, events: seq<Event>, job: Job, st: State, check: Pick, pick: Pick)
    requires IntakeOk(i) && Lawful(events)
    requires Applies(i, Course(i.domain, Opened(i), events), job, st, check, pick)
    ensures Ready(job, st, pick) && SameButCoordinates(StagedRows(i), job.rows)
    ensures SessionOk(i.domain, AtBaseline(i), Course(i.domain, Opened(i), events)) && Stamped(AtBaseline(i))
  {
    OpenedOk(i);
    SessionStaysExact(i.domain, AtBaseline(i), Opened(i), events);
    CoordinatesKeepOutputs(StagedRows(i), job.rows);
    StaysApart(i, job.rows, st.docs, pick);
  }

  lemma StaysApart(i: Intake, rows: seq<Row>, docs: Docs, pick: Pick)
    requires PackageApart(i.domain, docs, i.offered) && SameButCoordinates(StagedRows(i), rows) && Picks(pick)
    ensures RowsApart(i.domain, rows, Lookups(i.domain, pick, docs, rows))
  {
    var hits := Lookups(i.domain, pick, docs, rows);
    forall a, b | 0 <= a < |rows| && 0 <= b < |rows| && a != b && RowKey(i.domain, rows[a]) == RowKey(i.domain, rows[b])
      ensures rows[a].action.Deactivate? && hits[a].None?
    {
      KeysThroughout(i.domain, i.staging, i.found.docs, i.offered, rows, a);
      KeysThroughout(i.domain, i.staging, i.found.docs, i.offered, rows, b);
      assert i.offered[a].action.Deactivate?;
    }
  }

  /** Whether rows without an output can be asked for one now was settled when the baseline was taken. */
  lemma ReuseNow(i: Intake, events: seq<Event>, job: Job, st: State, check: Pick, pick: Pick)
    requires IntakeOk(i) && Lawful(events)
    requires Applies(i, Course(i.domain, Opened(i), events), job, st, check, pick)
    ensures ReuseHolds(i.domain, pick, st.docs, job.rows) <==>
            ReuseHolds(i.domain, i.baseline, AtBaseline(i).docs, StagedRows(i))
  {
    var end := Course(i.domain, Opened(i), events);
    SessionReady(i, events, job, st, check, pick);
    SinceTransitive(AtBaseline(i), end.seen, end.table);
    ReuseSettledByBaseline(i.domain, AtBaseline(i), i.baseline, end.table, check, pick, job.rows);
    CoordinatesKeepReuse(i.domain, i.baseline, AtBaseline(i).docs, StagedRows(i), job.rows);
  }

  /** Every proposed update is approved. */
  ghost predicate AllApproved(review: seq<nat>, decisions: Decisions) {
    forall k {:trigger k in review} :: k in review ==> k in decisions && decisions[k] == Approved
  }

  /**
   With everything approved, what decides is whether the reuse held when the baseline was taken; if it did not,
   applying asks for an output there never was, although nothing has changed since.
   */
  lemma ApprovedBatchAppliesIffReuseHeld(i: Intake, events: seq<Event>, job: Job, st: State, check: Pick, pick: Pick)
    requires IntakeOk(i) && Lawful(events)
    requires Applies(i, Course(i.domain, Opened(i), events), job, st, check, pick)
    requires AllGiveSame(i.domain, Course(i.domain, Opened(i), events).seen.docs, st.docs, pick, job.rows)
    requires var b := Course(i.domain, Opened(i), events).batch; AllApproved(b.review, b.decisions)
    ensures Sized(job)
    ensures Applied(job, st, |job.rows|).Ok? <==>
            ReuseHolds(i.domain, i.baseline, AtBaseline(i).docs, StagedRows(i))
    ensures Applied(job, st, |job.rows|).Err? ==> Applied(job, st, |job.rows|).error == OutputMissing
  {
    var end := Course(i.domain, Opened(i), events);
    SessionReady(i, events, job, st, check, pick);
    PreviewedAlike(i.domain, AtBaseline(i), i.baseline, end.seen, end.choice, end.table, check, pick, job.rows);
    ReuseNow(i, events, job, st, check, pick);
    AppliesIffDecided(job, st, pick);
    ApprovedIsDecided(end.batch.review, end.batch.decisions);
    if ReuseHolds(i.domain, pick, st.docs, job.rows) {
      ReuseSupplies(job, st.docs, pick);
    } else {
      ApprovedAsksForOutput(job, st, pick);
    }
  }

  lemma ApprovedIsDecided(review: seq<nat>, decisions: Decisions)
    requires AllApproved(review, decisions)
    ensures AllDecided(review, decisions)
  {
    forall i | 0 <= i < |review| ensures review[i] in decisions { assert review[i] in review; }
  }

  lemma ApprovedAsksForOutput(job: Job, st: State, pick: Pick)
    requires Ready(job, st, pick) && !ReuseHolds(job.domain, pick, st.docs, job.rows)
    requires AllApproved(Preview(job.domain, pick, st.docs, job.rows).1, job.decisions)
    ensures !AllSupplied(job, st.docs)
  {
    var j :| 0 <= j < |job.rows| && job.rows[j].action.Upsert? && job.rows[j].staging.None?
             && !Reused(job.domain, pick, st.docs, job.rows[j]);
    HitIs(job, st, pick, j);
    var ps := Proposals(job.domain, st.docs, job.rows, job.hits);
    if job.hits[j].Some? {
      assert ps[j].Update?;
      UpdateIsReviewed(ps, job.hits, |ps|, j);
    }
    assert NeedsOutput(job, st.docs, j);
  }

  lemma {:induction false} UpdateIsReviewed(ps: seq<Proposal>, hits: seq<Option<nat>>, n: nat, j: nat)
    requires j < n <= |ps| == |hits| && ps[j].Update? && hits[j].Some?
    ensures hits[j].value in Summed(ps, hits, n).1
  {
    if j < n - 1 { UpdateIsReviewed(ps, hits, n - 1, j); }
  }

  lemma SingleFound(domain: Domain, x: nat, doc: Doc, row: Row)
    requires RowKey(domain, row) == DocKey(domain, doc)
    ensures Current(domain, Prefer(x), map[x := doc], row) == Some(doc)
    ensures UniqueAt(domain, map[x := doc], RowKey(domain, row))
  {
    assert Holders(domain, map[x := doc], RowKey(domain, row)) == {x};
  }

  lemma OneSave(t: Table, x: nat, doc: Doc)
    ensures EditRun(t, [Save(x, doc)]) == Table(t.docs[x := doc.(updatedAt := t.clock)], t.clock + 1)
  {
    var es := [Save(x, doc)];
    assert es[..0] == [] && EditRun(t, es[..0]) == t;
  }

  /** Staging finds `doc`; before the baseline is taken, `edited` takes its place. */
  function BrokenIntake(domain: Domain, x: nat, doc: Doc, edited: Doc, row: Row): Intake {
    var pick := Prefer(x);
    Intake(domain, Table(map[x := doc], doc.updatedAt + 1), pick, [Save(x, edited)], pick, [], pick, [row])
  }

  lemma BrokenIntakeBreaks(domain: Domain, x: nat, doc: Doc, edited: Doc, row: Row)
    requires row.action.Upsert? && row.staging.Some? && row.sourceSha == doc.sourceSha != edited.sourceSha
    requires RowKey(domain, row) == DocKey(domain, doc) == DocKey(domain, edited)
    ensures var i := BrokenIntake(domain, x, doc, edited, row);
            && IntakeOk(i) && UniqueRows(domain, AtBaseline(i).docs, StagedRows(i)) && x in AtBaseline(i).docs
            && AtBaseline(i).docs.Keys == {x} && StagedRows(i)[0].staging.None?
            && !ReuseHolds(domain, i.baseline, AtBaseline(i).docs, StagedRows(i))
  {
    var i := BrokenIntake(domain, x, doc, edited, row);
    var stamped := edited.(updatedAt := i.found.clock);
    OneSave(i.found, x, edited);
    assert AtBaseline(i).docs == map[x := stamped];
    SingleFound(domain, x, doc, row);
    var kept := StagedRows(i)[0];
    assert kept == row.(staging := None, sanitizedSha := doc.sha,
                        file := File(row.file.name, doc.file.size, doc.file.pages));
    SingleFound(domain, x, stamped, kept);
    assert !Reused(domain, i.baseline, AtBaseline(i).docs, kept);
  }

  lemma ApproveAllApproves(domain: Domain, pick: Pick, docs: Docs, b: Batch)
    ensures var b' := Review(domain, pick, docs, b, ApproveAll);
            AllApproved(b'.review, b'.decisions) && b'.rows == b.rows
  {
  }

  /** With nothing edited after the baseline and everything approved, a batch is ready to be applied. */
  lemma ApprovedAtOnce(i: Intake, pick: Pick, job: Job, st: State)
    requires IntakeOk(i) && i.between == [] && Picks(pick) && |i.offered| == 1 && st.docs == AtBaseline(i).docs
    requires UniqueRows(i.domain, st.docs, StagedRows(i)) && StagedRows(i)[0].staging.None?
    requires |job.draws| == 1 && FreshNames(st.docs, job.draws)
    requires var b := Review(i.domain, pick, st.docs, Opened(i).batch, ApproveAll);
             job == Job(i.domain, b.rows, b.decisions, Lookups(i.domain, pick, st.docs, b.rows), job.draws, job.now)
    ensures var end := Course(i.domain, Opened(i), [ReviewBy(ApproveAll, pick)]);
            && Applies(i, end, job, st, i.baseline, pick) && AllApproved(end.batch.review, end.batch.decisions)
            && AllGiveSame(i.domain, end.seen.docs, st.docs, pick, job.rows)
  {
    var start, events := Opened(i), [ReviewBy(ApproveAll, pick)];
    assert events[..0] == [] && Course(i.domain, start, events[..0]) == start;
    var end := Course(i.domain, start, events);
    assert end == Happen(i.domain, start, events[0]);
    ApproveAllApproves(i.domain, pick, st.docs, start.batch);
    assert EditRun(AtBaseline(i), i.between) == AtBaseline(i);
    forall j | 0 <= j < |job.rows| ensures GivesSame(i.domain, st.docs, st.docs, pick, job.rows[j]) {
      var key := RowKey(i.domain, job.rows[j]);
      assert UniqueAt(i.domain, st.docs, key);
      forall z | z in Holders(i.domain, st.docs, key)
        ensures SameFrom(i.domain, st.docs, st.docs, pick, job.rows[j], z)
      {
        FindUnique(i.domain, pick, st.docs, key, z);
      }
    }
  }

  /**
   And it may not have held: whatever edit replaces a plan's content between staging and the baseline, the batch with
   that plan's row, approved at once and applied on the very documents of the baseline, asks for an output there never
   was.
   */
  lemma EditBreaksReuse(domain: Domain, x: nat, doc: Doc, edited: Doc, row: Row)
    returns (i: Intake, events: seq<Event>, job: Job, st: State)
    requires row.action.Upsert? && row.staging.Some? && row.sourceSha == doc.sourceSha != edited.sourceSha
    requires RowKey(domain, row) == DocKey(domain, doc) == DocKey(domain, edited)
    ensures i == BrokenIntake(domain, x, doc, edited, row) && IntakeOk(i) && Lawful(events)
    ensures var end := Course(domain, Opened(i), events);
            && Applies(i, end, job, st, i.baseline, i.baseline) && AllApproved(end.batch.review, end.batch.decisions)
            && AllGiveSame(domain, end.seen.docs, st.docs, i.baseline, job.rows)
    ensures st.docs == AtBaseline(i).docs && |job.rows| == 1 && Sized(job) && Applied(job, st, 1) == Err(OutputMissing)
  {
    i := BrokenIntake(domain, x, doc, edited, row);
    BrokenIntakeBreaks(domain, x, doc, edited, row);
    var pick := i.baseline;
    events := [ReviewBy(ApproveAll, pick)];
    st := State(AtBaseline(i).docs, map[], map[]);
    var b := Review(domain, pick, st.docs, Opened(i).batch, ApproveAll);
    job := Job(domain, b.rows, b.decisions, Lookups(domain, pick, st.docs, b.rows), [x + 1], 0);
    ApprovedAtOnce(i, pick, job, st);
    ApprovedBatchAppliesIffReuseHeld(i, events, job, st, pick, pick);
  }

  // ---- applying reaches a fixpoint ------------------------------------------------------------------

  /** A document that was there before keeps its identity key. */
  lemma OldKeepsKey(job: Job, st: State, pick: Pick, st': State, vs: seq<Verdict>, x: nat)
    requires Ready(job, st, pick) && Progress(job, st, st', vs) && |vs| == |job.rows| && x in st.docs
    ensures x in st'.docs && DocKey(job.domain, st'.docs[x]) == DocKey(job.domain, st.docs[x])
  {
    if Some(x) in job.hits {
      var j :| 0 <= j < |job.hits| && job.hits[j] == Some(x);
      assert Done(job, st, st', j, vs[j]);
      HitIs(job, st, pick, j);
      EffectKeepsKey(job.domain, st.docs[x], job.rows[j], vs[j], Destination(job.domain, job.hits[j], job.draws[j]),
          TimeOf(job, j));
    } else {
      assert Bystander(job, st, st', x);
    }
  }

  /** A new document has the identity key of the row it was created for, which no document had. */
  lemma NewHasRowKey(job: Job, st: State, pick: Pick, st': State, vs: seq<Verdict>, x: nat) returns (j: nat)
    requires Ready(job, st, pick) && Progress(job, st, st', vs) && |vs| == |job.rows| && x in st'.docs && x !in st.docs
    ensures j < |job.rows| && job.draws[j] == x && vs[j].Create? && job.hits[j].None? && job.rows[j].action.Upsert?
    ensures DocKey(job.domain, st'.docs[x]) == RowKey(job.domain, job.rows[j])
  {
    assert Accounted(job, st, st', vs, x);
    j :| 0 <= j < |vs| && job.draws[j] == x && vs[j].Create?;
    assert Done(job, st, st', j, vs[j]);
    CreatedHasRowKey(job.domain, job.rows[j], Destination(job.domain, job.hits[j], job.draws[j]), TimeOf(job, j));
  }

  /** No document had the key of a row without a hit. */
  lemma NoHitNoKey(job: Job, st: State, pick: Pick, j: nat, x: nat)
    requires Ready(job, st, pick) && j < |job.rows| && job.hits[j].None? && x in st.docs
    ensures DocKey(job.domain, st.docs[x]) != RowKey(job.domain, job.rows[j])
  {
    HitIs(job, st, pick, j);
    assert x !in Holders(job.domain, st.docs, RowKey(job.domain, job.rows[j]));
  }

  /** A key that at most one document had is a key that at most one document has. */
  lemma KeyStaysUnique(job: Job, st: State, pick: Pick, st': State, vs: seq<Verdict>, key: Key)
    requires Ready(job, st, pick) && Progress(job, st, st', vs) && |vs| == |job.rows|
    requires UniqueAt(job.domain, st.docs, key)
    ensures UniqueAt(job.domain, st'.docs, key)
  {
    forall x, y | x in Holders(job.domain, st'.docs, key) && y in Holders(job.domain, st'.docs, key) ensures x == y {
      if x != y { TwoKeysDiffer(job, st, pick, st', vs, key, x, y); }
    }
  }

  lemma TwoKeysDiffer(job: Job, st: State, pick: Pick, st': State, vs: seq<Verdict>, key: Key, x: nat, y: nat)
    requires Ready(job, st, pick) && Progress(job, st, st', vs) && |vs| == |job.rows|
    requires UniqueAt(job.domain, st.docs, key)
    requires x in st'.docs && y in st'.docs && x != y && DocKey(job.domain, st'.docs[x]) == key
    ensures DocKey(job.domain, st'.docs[y]) != key
  {
    if x in st.docs && y in st.docs {
      OldKeepsKey(job, st, pick, st', vs, x);
      OldKeepsKey(job, st, pick, st', vs, y);
      assert x in Holders(job.domain, st.docs, key);
      assert DocKey(job.domain, st.docs[y]) == key ==> y in Holders(job.domain, st.docs, key);
    } else if x in st.docs {
      OldKeepsKey(job, st, pick, st', vs, x);
      var j := NewHasRowKey(job, st, pick, st', vs, y);
      NoHitNoKey(job, st, pick, j, x);
    } else if y in st.docs {
      OldKeepsKey(job, st, pick, st', vs, y);
      var i := NewHasRowKey(job, st, pick, st', vs, x);
      NoHitNoKey(job, st, pick, i, y);
    } else {
      var i := NewHasRowKey(job, st, pick, st', vs, x);
      var j := NewHasRowKey(job, st, pick, st', vs, y);
      RowsDiffer(job, st, pick, i, j);
    }
  }

  /** Looking a row up again, by whatever query, finds the document it hit, or the one created for it. */
  lemma FoundAgain(job: Job, st: State, pick: Pick, st': State, vs: seq<Verdict>, j: nat, again: Pick)
    requires Ready(job, st, pick) && Progress(job, st, st', vs) && |vs| == |job.rows| && Picks(again)
    requires j < |job.rows| && UniqueAt(job.domain, st.docs, RowKey(job.domain, job.rows[j]))
    ensures Find(job.domain, again, st'.docs, RowKey(job.domain, job.rows[j])) ==
            if job.hits[j].Some? then job.hits[j] else if vs[j].Create? then Some(job.draws[j]) else None
  {
    var key := RowKey(job.domain, job.rows[j]);
    KeyStaysUnique(job, st, pick, st', vs, key);
    HitIs(job, st, pick, j);
    assert Done(job, st, st', j, vs[j]);
    if job.hits[j].Some? {
      OldKeepsKey(job, st, pick, st', vs, job.hits[j].value);
      FindUnique(job.domain, again, st'.docs, key, job.hits[j].value);
    } else if vs[j].Create? {
      CreatedHasRowKey(job.domain, job.rows[j], Destination(job.domain, job.hits[j], job.draws[j]), TimeOf(job, j));
      FindUnique(job.domain, again, st'.docs, key, job.draws[j]);
    } else {
      forall x | x in st'.docs
        ensures DocKey(job.domain, st'.docs[x]) != key
      {
        NothingNew(job, st, pick, st', vs, j, x);
      }
      assert Holders(job.domain, st'.docs, key) == {};
    }
  }

  lemma NothingNew(job: Job, st: State, pick: Pick, st': State, vs: seq<Verdict>, j: nat, x: nat)
    requires Ready(job, st, pick) && Progress(job, st, st', vs) && |vs| == |job.rows|
    requires j < |job.rows| && job.hits[j].None? && !vs[j].Create? && x in st'.docs
    ensures DocKey(job.domain, st'.docs[x]) != RowKey(job.domain, job.rows[j])
  {
    if x in st.docs {
      OldKeepsKey(job, st, pick, st', vs, x);
      NoHitNoKey(job, st, pick, j, x);
    } else {
      var i := NewHasRowKey(job, st, pick, st', vs, x);
      RowsDiffer(job, st, pick, i, j);
    }
  }

  /** What the preview would propose next: nothing, but for the updates that were skipped. */
  function Leftover(v: Verdict): Proposal {
    if v.Skip? then Update else Same
  }

  lemma ProposedAgain(job: Job, st: State, pick: Pick, st': State, vs: seq<Verdict>, j: nat, again: Pick)
    requires Ready(job, st, pick) && Progress(job, st, st', vs) && |vs| == |job.rows| && Picks(again)
    requires j < |job.rows| && UniqueAt(job.domain, st.docs, RowKey(job.domain, job.rows[j]))
    ensures Propose(job.domain, Current(job.domain, again, st'.docs, job.rows[j]), job.rows[j]) == Leftover(vs[j])
  {
    FoundAgain(job, st, pick, st', vs, j, again);
    HitIs(job, st, pick, j);
    assert Done(job, st, st', j, vs[j]);
    AppliedProposesNothing(job.domain, DocAt(st.docs, job.hits[j]), DecisionFor(job.decisions, job.hits[j]), st.staged,
                           job.rows[j], Destination(job.domain, job.hits[j], job.draws[j]), TimeOf(job, j));
  }

  /** The number of skipped rows among the first `n`. */
  function Skips(vs: seq<Verdict>, n: nat): nat
    requires n <= |vs|
  {
    TallyOf(vs, n).skipped
  }

  /** Of `n` rows, `skips` propose an update and the others nothing. */
  ghost predicate OnlySkips(c: Counts, skips: nat, n: nat) {
    c.add == 0 && c.update == skips && c.deactivate == 0 && c.same + skips == n
  }

  lemma {:induction false} LeftoverCounts(ps: seq<Proposal>, hits: seq<Option<nat>>, vs: seq<Verdict>, n: nat)
    requires n <= |ps| == |hits| == |vs| && forall j :: 0 <= j < |vs| ==> ps[j] == Leftover(vs[j])
    ensures OnlySkips(Summed(ps, hits, n).0, Skips(vs, n), n)
  {
    if n > 0 { LeftoverCounts(ps, hits, vs, n - 1); }
  }

  /**
   Applying is a fixpoint, for fire plans and KLGV plans alike: documents keep their identity keys, a key that was
   unique stays unique, and a new preview of the same rows, by whatever query, proposes no additions, no
   deactivations, and exactly the updates that were skipped. Only the keys of the rows need to be unique.
   */
  lemma ApplyingIsAFixpoint(job: Job, st: State, pick: Pick, again: Pick)
    requires Ready(job, st, pick) && Picks(again) && UniqueRows(job.domain, st.docs, job.rows)
    requires Applied(job, st, |job.rows|).Ok?
    ensures var (st', vs) := Applied(job, st, |job.rows|).value;
            && |vs| == |job.rows| && OnlySkips(Preview(job.domain, again, st'.docs, job.rows).0, Skips(vs, |vs|), |vs|)
            && (forall x :: x in st.docs ==>
                x in st'.docs && DocKey(job.domain, st'.docs[x]) == DocKey(job.domain, st.docs[x]))
            && (forall key {:trigger UniqueAt(job.domain, st'.docs, key)} ::
                  UniqueAt(job.domain, st.docs, key) ==> UniqueAt(job.domain, st'.docs, key))
            && (forall j :: 0 <= j < |vs| ==>
                  Propose(job.domain, Current(job.domain, again, st'.docs, job.rows[j]), job.rows[j]) ==
                      Leftover(vs[j]))
  {
    var n := |job.rows|;
    ReadyIsSetup(job, st, pick);
    AppliesExactly(job, st);
    StopsAtFirst(job, st, n);
    FollowsPlan(job, st, n);
    var st', vs := Applied(job, st, n).value.0, Applied(job, st, n).value.1;
    forall x | x in st.docs ensures x in st'.docs && DocKey(job.domain, st'.docs[x]) == DocKey(job.domain, st.docs[x]) {
      OldKeepsKey(job, st, pick, st', vs, x);
    }
    forall key | UniqueAt(job.domain, st.docs, key) ensures UniqueAt(job.domain, st'.docs, key) {
      KeyStaysUnique(job, st, pick, st', vs, key);
    }
    var hits := Lookups(job.domain, again, st'.docs, job.rows);
    forall j | 0 <= j < |vs|
      ensures Propose(job.domain, Current(job.domain, again, st'.docs, job.rows[j]), job.rows[j]) == Leftover(vs[j])
      ensures Proposals(job.domain, st'.docs, job.rows, hits)[j] == Leftover(vs[j])
    {
      assert UniqueAt(job.domain, st.docs, RowKey(job.domain, job.rows[j]));
      ProposedAgain(job, st, pick, st', vs, j, again);
    }
    LeftoverCounts(Proposals(job.domain, st'.docs, job.rows, hits), hits, vs, n);
  }

  // ---- applying is editing --------------------------------------------------------------------------

  /** What a batch does to the documents is a series of stamped saves, like any other edits. */
  lemma {:induction false} AppliedIsEdits(job: Job, st: State, n: nat)
    requires Sized(job) && n <= |job.rows| && Applied(job, st, n).Ok? && Stamped(Table(st.docs, job.now))
    ensures Stamped(TableOf(job, Applied(job, st, n).value.0, n))
    ensures Since(Table(st.docs, job.now), TableOf(job, Applied(job, st, n).value.0, n))
  {
    if n == 0 {
      assert TableOf(job, Applied(job, st, n).value.0, n) == Table(st.docs, job.now);
    } else {
      assert Applied(job, st, n - 1).Ok?;
      AppliedIsEdits(job, st, n - 1);
      OneMoreEdit(job, Table(st.docs, job.now), st, n - 1, Applied(job, st, n - 1).value.0,
          Applied(job, st, n - 1).value.1);
    }
  }

  lemma OneMoreEdit(job: Job, t: Table, st: State, n: nat, st': State, vs: seq<Verdict>)
    requires Sized(job) && n < |job.rows| && Applied(job, st, n) == Ok((st', vs)) && Applied(job, st, n + 1).Ok?
    requires Stamped(TableOf(job, st', n)) && Since(t, TableOf(job, st', n))
    ensures var st'' := Applied(job, st, n + 1).value.0;
            Stamped(TableOf(job, st'', n + 1)) && Since(t, TableOf(job, st'', n + 1))
  {
    AppliedNext(job, st, n, st', vs);
    var v := VerdictOn(job, st', n).value;
    CarryOutIsEdit(job, st', n, v);
    SinceTransitive(t, TableOf(job, st', n), TableOf(job, CarryOut(job, st', n, v), n + 1));
  }

  /** The table of a state that the first `n` rows have led to. */
  function TableOf(job: Job, st: State, n: nat): Table {
    Table(st.docs, job.now + n)
  }

  lemma ClockTicks(t: Table)
    requires Stamped(t)
    ensures Stamped(Table(t.docs, t.clock + 1)) && Since(t, Table(t.docs, t.clock + 1))
  {
  }

  lemma CarryOutIsEdit(job: Job, st: State, j: nat, v: Verdict)
    requires Sized(job) && j < |job.rows| && Stamped(Table(st.docs, job.now + j))
    ensures var t, later := Table(st.docs, job.now + j), Table(CarryOut(job, st, j, v).docs, job.now + j + 1);
            Stamped(later) && Since(t, later)
  {
    CarryOutSaves(job, st, j, v);
    var t, docs := Table(st.docs, job.now + j), CarryOut(job, st, j, v).docs;
    if docs == st.docs {
      ClockTicks(t);
    } else {
      var id :| id in docs && docs == st.docs[id := docs[id].(updatedAt := job.now + j)];
      EditSince(t, Save(id, docs[id]));
    }
  }

  lemma CarryOutSaves(job: Job, st: State, j: nat, v: Verdict)
    requires Sized(job) && j < |job.rows|
    ensures var docs := CarryOut(job, st, j, v).docs;
            docs == st.docs || exists id :: id in docs && docs == st.docs[id := docs[id].(updatedAt := job.now + j)]
  {
    var docs, hit := CarryOut(job, st, j, v).docs, job.hits[j];
    if v.Create? {
      var id := job.draws[j];
      assert docs[id].updatedAt == job.now + j;
      assert docs == st.docs[id := docs[id].(updatedAt := job.now + j)];
    } else if hit.Some? && hit.value in st.docs {
      var id := hit.value;
      if v.Skip? || v.Keep? {
        assert docs == st.docs;
      } else {
        assert docs[id].updatedAt == job.now + j;
        assert docs == st.docs[id := docs[id].(updatedAt := job.now + j)];
      }
    }
  }

  /**
   So imports can follow one another: the table that an applied batch leaves is one that the next batch can be staged,
   previewed and applied on, among further edits.
   */
  lemma AppliedTableServesNext(job: Job, st: State, pick: Pick, next: Intake)
    requires Ready(job, st, pick) && Stamped(Table(st.docs, job.now)) && Applied(job, st, |job.rows|).Ok?
    requires next.found == TableOf(job, Applied(job, st, |job.rows|).value.0, |job.rows|)
    requires Picks(next.staging) && Picks(next.baseline) && Picks(next.first)
    requires Offered(next.offered) && OwnOutputs(next.offered)
    ensures IntakeOk(next) && Since(Table(st.docs, job.now), next.found)
    ensures SessionOk(next.domain, AtBaseline(next), Opened(next))
  {
    AppliedIsEdits(job, st, |job.rows|);
    OpenedOk(next);
  }
}
