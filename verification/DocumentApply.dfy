/**
 Applying a reviewed document batch: the loop that changes documents and moves sanitised PDFs into place, and why no row
 of it gets in another's way.
 */
module DocumentApply {
  import opened Common
  import opened DocumentImport

  /** The documents of the department, and the digests of the staged and the accepted PDFs. */
  datatype State = State(docs: Docs, staged: map<string, string>, accepted: map<Path, string>)

  /**
   A batch to apply; its rows are written one after the other from the time `now` on. `hits` are the documents that
   the dictionary made before the loop holds for the rows, and `draws` the fresh names, one per row.
   */
  datatype Job = Job(
    domain: Domain, rows: seq<Row>, decisions: Decisions, hits: seq<Option<nat>>, draws: seq<nat>, now: int)

  predicate Sized(job: Job) {
    |job.hits| == |job.draws| == |job.rows|
  }

  /** When row `j` is saved. */
  function TimeOf(job: Job, j: nat): int {
    job.now + j
  }

  // ---- the loop -------------------------------------------------------------------------------------

  function DecisionFor(decisions: Decisions, hit: Option<nat>): Option<Decision> {
    if hit.Some? && hit.value in decisions then Some(decisions[hit.value]) else None
  }

  function VerdictOn(job: Job, st: State, j: nat): Result<Verdict, Failure>
    requires Sized(job) && j < |job.rows|
  {
    Decide(job.domain, DocAt(st.docs, job.hits[j]), DecisionFor(job.decisions, job.hits[j]), st.staged, job.rows[j])
  }

  predicate Promotes(v: Verdict) {
    v.Create? || v.Replace?
  }

  /** `promote_to_accepted` moves the staged PDF to its destination. */
  function Promoted(st: State, row: Row, path: Path): State {
    st.(staged := if row.staging.None? then st.staged else st.staged - {row.staging.value},
        accepted := st.accepted[path := row.sanitizedSha])
  }

  /** Carrying out the verdict on row `j`. */
  function CarryOut(job: Job, st: State, j: nat, v: Verdict): State
    requires Sized(job) && j < |job.rows|
  {
    var row, hit, path := job.rows[j], job.hits[j], Destination(job.domain, job.hits[j], job.draws[j]);
    var moved := if Promotes(v) then Promoted(st, row, path) else st;
    if v.Create? then moved.(docs := st.docs[job.draws[j] := Created(job.domain, row, path, TimeOf(job, j))])
    else if hit.None? || hit.value !in st.docs then moved
    else moved.(docs := st.docs[hit.value := Effect(job.domain, st.docs[hit.value], row, v, path, TimeOf(job, j))])
  }

  /** The loop of `_apply_documents` after `n` rows, with the verdicts passed. */
  function Applied(job: Job, st: State, n: nat): Result<(State, seq<Verdict>), Failure>
    requires Sized(job) && n <= |job.rows|
  {
    if n == 0 then Ok((st, []))
    else
      var prior := Applied(job, st, n - 1);
      if prior.Err? then prior
      else
        var v := VerdictOn(job, prior.value.0, n - 1);
        if v.Err? then Err(v.error) else Ok((CarryOut(job, prior.value.0, n - 1, v.value), prior.value.1 + [v.value]))
  }

  lemma AppliedNext(job: Job, st: State, n: nat, st': State, vs: seq<Verdict>)
    requires Sized(job) && n < |job.rows| && Applied(job, st, n) == Ok((st', vs))
    ensures var v := VerdictOn(job, st', n);
            Applied(job, st, n + 1) == if v.Err? then Err(v.error)
                else Ok((CarryOut(job, st', n, v.value), vs + [v.value]))
  {
  }

  lemma {:induction false} StaysFailed(job: Job, st: State, m: nat, n: nat)
    requires Sized(job) && m <= n <= |job.rows| && Applied(job, st, m).Err?
    ensures Applied(job, st, n) == Applied(job, st, m)
    decreases n
  {
    if m < n { StaysFailed(job, st, m, n - 1); }
  }

  // ---- rows do not get in each other's way ----------------------------------------------------------

  /** Two rows concern different documents, different fresh names and different staged files. */
  ghost predicate Separate(job: Job, i: nat, j: nat)
    requires Sized(job) && i < |job.rows| && j < |job.rows|
  {
    && (job.hits[i].Some? ==> job.hits[i] != job.hits[j]) && job.draws[i] != job.draws[j]
    && (job.rows[i].staging.Some? ==> job.rows[i].staging != job.rows[j].staging)
  }

  /** A hit is a document there is; a draw is not. */
  ghost predicate Placed(job: Job, docs: Docs, j: nat)
    requires Sized(job) && j < |job.rows|
  {
    (job.hits[j].Some? ==> job.hits[j].value in docs) && job.draws[j] !in docs
  }

  ghost predicate Setup(job: Job, st: State) {
    && Sized(job)
    && (forall i, j {:trigger Separate(job, i, j)} :: 0 <= i < |job.rows| && 0 <= j < |job.rows| && i != j ==>
        Separate(job, i, j))
    && (forall j {:trigger Placed(job, st.docs, j)} :: 0 <= j < |job.rows| ==> Placed(job, st.docs, j))
  }

  /** The document that row `j` results in, if its verdict is positive and it has or gets one. */
  function ResultOf(job: Job, st: State, j: nat, v: Verdict): Doc
    requires Sized(job) && j < |job.rows|
  {
    var path := Destination(job.domain, job.hits[j], job.draws[j]);
    var doc := DocAt(st.docs, job.hits[j]);
    if doc.Some? then Effect(job.domain, doc.value, job.rows[j], v, path, TimeOf(job, j))
    else Created(job.domain, job.rows[j], path, TimeOf(job, j))
  }

  /** Row `j` has been dealt with as `v` says. */
  ghost predicate Done(job: Job, st: State, st': State, j: nat, v: Verdict)
    requires Sized(job) && j < |job.rows|
  {
    && VerdictOn(job, st, j) == Ok(v)
    && (job.hits[j].Some? ==> DocAt(st'.docs, job.hits[j]) == Some(ResultOf(job, st, j, v)))
    && (v.Create? ==> job.hits[j].None? && DocAt(st'.docs, Some(job.draws[j])) == Some(ResultOf(job, st, j, v)))
  }

  /** Row `j` finds everything as it was. */
  ghost predicate Waiting(job: Job, st: State, st': State, j: nat)
    requires Sized(job) && j < |job.rows|
  {
    && DocAt(st'.docs, job.hits[j]) == DocAt(st.docs, job.hits[j]) && job.draws[j] !in st'.docs
    && OutputOk(st'.staged, job.rows[j]) == OutputOk(st.staged, job.rows[j])
  }

  /** A document that no row hits is as it was. */
  ghost predicate Bystander(job: Job, st: State, st': State, x: nat) {
    x in st.docs && Some(x) !in job.hits ==> x in st'.docs && st'.docs[x] == st.docs[x]
  }

  /** A document that was not there before was created for one of the rows dealt with. */
  ghost predicate Accounted(job: Job, st: State, st': State, vs: seq<Verdict>, x: nat)
    requires Sized(job) && |vs| <= |job.rows|
  {
    x in st'.docs && x !in st.docs ==> exists j :: 0 <= j < |vs| && job.draws[j] == x && vs[j].Create?
  }

  /** The state after the first rows were dealt with by the verdicts `vs`. */
  ghost predicate Progress(job: Job, st: State, st': State, vs: seq<Verdict>) {
    && Sized(job) && |vs| <= |job.rows|
    && (forall j {:trigger Done(job, st, st', j, vs[j])} :: 0 <= j < |vs| ==> Done(job, st, st', j, vs[j]))
    && (forall j {:trigger Waiting(job, st, st', j)} :: |vs| <= j < |job.rows| ==> Waiting(job, st, st', j))
    && (forall x {:trigger Bystander(job, st, st', x)} :: Bystander(job, st, st', x))
    && (forall x {:trigger Accounted(job, st, st', vs, x)} :: Accounted(job, st, st', vs, x))
  }

  /** A waiting row gets the verdict it would have got at the start. */
  lemma WaitingAsPlanned(job: Job, st: State, st': State, j: nat)
    requires Sized(job) && j < |job.rows| && Waiting(job, st, st', j)
    ensures VerdictOn(job, st', j) == VerdictOn(job, st, j)
  {
  }

  lemma CarryOutDoes(job: Job, st: State, st': State, n: nat, v: Verdict)
    requires Sized(job) && n < |job.rows| && Placed(job, st.docs, n) && Waiting(job, st, st', n)
    requires VerdictOn(job, st, n) == Ok(v)
    ensures Done(job, st, CarryOut(job, st', n, v), n, v)
  {
  }

  /** Carrying out row `n` leaves the other rows' documents and files alone. */
  lemma CarryOutSpares(job: Job, st: State, st': State, n: nat, v: Verdict, j: nat)
    requires Sized(job) && n < |job.rows| && j < |job.rows| && Separate(job, n, j) && Separate(job, j, n)
    requires Placed(job, st.docs, n) && Placed(job, st.docs, j) && Waiting(job, st, st', n)
    requires VerdictOn(job, st, n) == Ok(v)
    ensures forall w :: Done(job, st, st', j, w) ==> Done(job, st, CarryOut(job, st', n, v), j, w)
    ensures Waiting(job, st, st', j) ==> Waiting(job, st, CarryOut(job, st', n, v), j)
  {
  }

  lemma ProgressStep(job: Job, st: State, st': State, vs: seq<Verdict>, v: Verdict)
    requires Setup(job, st) && |vs| < |job.rows| && Progress(job, st, st', vs) && VerdictOn(job, st, |vs|) == Ok(v)
    ensures Progress(job, st, CarryOut(job, st', |vs|, v), vs + [v])
  {
    var n, all := |vs|, vs + [v];
    var st'' := CarryOut(job, st', n, v);
    assert Waiting(job, st, st', n) && Placed(job, st.docs, n);
    CarryOutDoes(job, st, st', n, v);
    forall j | 0 <= j < |job.rows| && j != n
      ensures j < n ==> Done(job, st, st'', j, all[j])
      ensures j > n ==> Waiting(job, st, st'', j)
    {
      assert Separate(job, n, j) && Separate(job, j, n) && Placed(job, st.docs, j);
      CarryOutSpares(job, st, st', n, v, j);
      assert j < n ==> Done(job, st, st', j, vs[j]);
      assert j > n ==> Waiting(job, st, st', j);
    }
    forall x ensures Bystander(job, st, st'', x) {
      assert Bystander(job, st, st', x);
      assert job.hits[n] in job.hits;
    }
    forall x ensures Accounted(job, st, st'', all, x) {
      AccountedStep(job, st, st', vs, v, x);
    }
  }

  lemma AccountedStep(job: Job, st: State, st': State, vs: seq<Verdict>, v: Verdict, x: nat)
    requires Setup(job, st) && |vs| < |job.rows| && Progress(job, st, st', vs)
    ensures Accounted(job, st, CarryOut(job, st', |vs|, v), vs + [v], x)
  {
    assert Accounted(job, st, st', vs, x);
    var all := vs + [v];
    if x in st'.docs && x !in st.docs {
      var j :| 0 <= j < |vs| && job.draws[j] == x && vs[j].Create?;
      assert all[j].Create?;
    } else {
      assert all[|vs|] == v;
    }
  }

  lemma ProgressStart(job: Job, st: State)
    requires Setup(job, st)
    ensures Progress(job, st, st, [])
  {
    forall j | 0 <= j < |job.rows| ensures Waiting(job, st, st, j) { assert Placed(job, st.docs, j); }
  }

  /** Row `j` is not refused. */
  ghost predicate Granted(job: Job, st: State, j: nat)
    requires Sized(job) && j < |job.rows|
  {
    VerdictOn(job, st, j).Ok?
  }

  /** As long as rows are granted on the state at the start, the loop deals with them one by one. */
  lemma {:induction false} FollowsPlan(job: Job, st: State, n: nat)
    requires Setup(job, st) && n <= |job.rows|
    requires forall j {:trigger Granted(job, st, j)} :: 0 <= j < n ==> Granted(job, st, j)
    ensures var r := Applied(job, st, n); r.Ok? && |r.value.1| == n && Progress(job, st, r.value.0, r.value.1)
  {
    if n == 0 {
      ProgressStart(job, st);
    } else {
      FollowsPlan(job, st, n - 1);
      assert Granted(job, st, n - 1);
      FollowsOne(job, st, n - 1, Applied(job, st, n - 1).value.0, Applied(job, st, n - 1).value.1);
    }
  }

  lemma FollowsOne(job: Job, st: State, n: nat, st': State, vs: seq<Verdict>)
    requires Setup(job, st) && n < |job.rows| && |vs| == n && Progress(job, st, st', vs)
    requires Applied(job, st, n) == Ok((st', vs))
    ensures VerdictOn(job, st, n).Err? ==> Applied(job, st, n + 1) == Err(VerdictOn(job, st, n).error)
    ensures VerdictOn(job, st, n).Ok? ==>
              var v := VerdictOn(job, st, n).value;
              && Applied(job, st, n + 1) == Ok((CarryOut(job, st', n, v), vs + [v]))
              && Progress(job, st, CarryOut(job, st', n, v), vs + [v])
  {
    assert Waiting(job, st, st', n);
    WaitingAsPlanned(job, st, st', n);
    AppliedNext(job, st, n, st', vs);
    if VerdictOn(job, st, n).Ok? { ProgressStep(job, st, st', vs, VerdictOn(job, st, n).value); }
  }

  /** The row at which the loop stops, or the number of rows. */
  function StopsAt(job: Job, st: State, n: nat): (k: nat)
    requires Sized(job) && n <= |job.rows|
    ensures k <= n
  {
    if n == 0 then 0
    else
      var k := StopsAt(job, st, n - 1);
      if k == n - 1 && VerdictOn(job, st, n - 1).Ok? then n else k
  }

  lemma {:induction false} StopsAtFirst(job: Job, st: State, n: nat)
    requires Sized(job) && n <= |job.rows|
    ensures var k := StopsAt(job, st, n);
            (forall j {:trigger Granted(job, st, j)} :: 0 <= j < k ==> Granted(job, st, j))
            && (k < n ==> !Granted(job, st, k))
  {
    if n > 0 { StopsAtFirst(job, st, n - 1); }
  }

  /**
   The loop succeeds exactly when every row is granted on the state at the start; otherwise the first refusal is its
   error.
   */
  lemma AppliesExactly(job: Job, st: State)
    requires Setup(job, st)
    ensures var n, k := |job.rows|, StopsAt(job, st, |job.rows|);
            && (Applied(job, st, n).Ok? <==> k == n)
            && (k < n ==> VerdictOn(job, st, k).Err? && Applied(job, st, n) == Err(VerdictOn(job, st, k).error))
  {
    var n, k := |job.rows|, StopsAt(job, st, |job.rows|);
    StopsAtFirst(job, st, n);
    FollowsPlan(job, st, k);
    if k < n {
      FollowsOne(job, st, k, Applied(job, st, k).value.0, Applied(job, st, k).value.1);
      StaysFailed(job, st, k + 1, n);
    }
  }

  // ---- what an applied row leaves behind, field by field --------------------------------------------

  lemma OkFollowsPlan(job: Job, st: State, n: nat)
    requires Setup(job, st) && n <= |job.rows| && Applied(job, st, n).Ok?
    ensures |Applied(job, st, n).value.1| == n
    ensures Progress(job, st, Applied(job, st, n).value.0, Applied(job, st, n).value.1)
  {
    var k := StopsAt(job, st, n);
    StopsAtFirst(job, st, n);
    FollowsPlan(job, st, k);
    if k < n {
      FollowsOne(job, st, k, Applied(job, st, k).value.0, Applied(job, st, k).value.1);
      StaysFailed(job, st, k + 1, n);
    }
  }

  /** The document that row `j` found when the loop began. */
  function FoundFor(job: Job, st: State, j: nat): Option<Doc>
    requires Sized(job) && j < |job.rows|
  {
    if job.hits[j].Some? && job.hits[j].value in st.docs then Some(st.docs[job.hits[j].value]) else None
  }

  /** The reviewer's decision on the document that row `j` found. */
  function DecidedFor(job: Job, j: nat): Option<Decision>
    requires Sized(job) && j < |job.rows|
  {
    if job.hits[j].Some? && job.hits[j].value in job.decisions then Some(job.decisions[job.hits[j].value]) else None
  }

  /**
   After any number of rows, each row dealt with got the verdict that fits the document it found at the start; that
   document reads as the verdict leaves it, field by field, or the one created for the row reads as the row does.
   */
  lemma AppliedFieldByField(job: Job, st: State, n: nat, j: nat)
    requires Setup(job, st) && j < n <= |job.rows| && Applied(job, st, n).Ok?
    ensures var (st', vs) := Applied(job, st, n).value;
            && |vs| == n && VerdictFits(job.domain, FoundFor(job, st, j), job.rows[j], DecidedFor(job, j), vs[j])
            && (job.hits[j].Some? ==>
                  && job.hits[j].value in st.docs && job.hits[j].value in st'.docs
                  && LeftAs(job.domain, st.docs[job.hits[j].value], job.rows[j], vs[j], job.hits[j].value, job.draws[j],
                       job.now + j, st'.docs[job.hits[j].value]))
            && (vs[j].Create? ==>
                  && job.hits[j].None? && job.draws[j] !in st.docs && job.draws[j] in st'.docs
                  && MadeFrom(job.domain, job.rows[j], job.draws[j], job.now + j, st'.docs[job.draws[j]]))
  {
    OkFollowsPlan(job, st, n);
    var (st', vs) := Applied(job, st, n).value;
    assert Done(job, st, st', j, vs[j]) && Placed(job, st.docs, j);
    DecideFits(job.domain, DocAt(st.docs, job.hits[j]), DecisionFor(job.decisions, job.hits[j]), st.staged,
        job.rows[j]);
    if job.hits[j].Some? {
      EffectLeaves(job.domain, st.docs[job.hits[j].value], job.rows[j], vs[j], job.hits[j].value, job.draws[j],
          TimeOf(job, j));
    } else {
      CreatedIsMade(job.domain, job.rows[j], job.draws[j], TimeOf(job, j));
    }
  }

  /** All other documents are as they were, and none is there that was not before or created for a row. */
  lemma AppliedTouchesOnlyRows(job: Job, st: State, n: nat, x: nat)
    requires Setup(job, st) && n <= |job.rows| && Applied(job, st, n).Ok?
    ensures var (st', vs) := Applied(job, st, n).value;
            && |vs| == n
            && (x in st.docs && (forall j :: 0 <= j < |job.rows| ==> job.hits[j] != Some(x)) ==>
                  x in st'.docs && st'.docs[x] == st.docs[x])
            && (x in st'.docs && x !in st.docs ==> exists j :: 0 <= j < n && job.draws[j] == x && vs[j].Create?)
  {
    OkFollowsPlan(job, st, n);
    var (st', vs) := Applied(job, st, n).value;
    assert Bystander(job, st, st', x) && Accounted(job, st, st', vs, x);
  }
}
