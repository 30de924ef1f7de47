/**
 What applying a document batch does to files: success keeps every document's PDF in place, failure rolls the
 documents back but not the files. Also the method that applies.
 */
module DocumentFiles {
  import opened Common
  import opened DocumentImport
  import opened DocumentReview
  import opened DocumentApply
  import opened DocumentBatch

  /**
   The transaction is rolled back after `k` rows: the documents are as before, but files that were moved stay moved.
   */
  function RolledBack(job: Job, st: State, k: nat): State
    requires Sized(job) && k <= |job.rows|
  {
    var reached := Applied(job, st, k);
    if reached.Err? then st else st.(staged := reached.value.0.staged, accepted := reached.value.0.accepted)
  }

  /** The verdicts passed on the first `k` rows. */
  function Passed(job: Job, st: State, k: nat): seq<Verdict>
    requires Sized(job) && k <= |job.rows|
  {
    var reached := Applied(job, st, k);
    if reached.Ok? then reached.value.1 else []
  }

  /** The state after the loop: a refused row rolls it back. */
  function LeftBy(job: Job, st: State): State
    requires Sized(job)
  {
    var n, k := |job.rows|, StopsAt(job, st, |job.rows|);
    if k == n && Applied(job, st, n).Ok? then Applied(job, st, n).value.0 else RolledBack(job, st, k)
  }

  /** The loop gets past the first `k` rows. */
  ghost predicate Passes(job: Job, st: State, k: nat) {
    Setup(job, st) && k <= |job.rows| && Applied(job, st, k).Ok?
  }

  // ---- where files go -------------------------------------------------------------------------------

  /** Where row `j` puts a promoted PDF. */
  function Goal(job: Job, j: nat): Path
    requires Sized(job) && j < |job.rows|
  {
    Destination(job.domain, job.hits[j], job.draws[j])
  }

  /** One of the verdicts took the staged file. */
  ghost predicate Taken(job: Job, vs: seq<Verdict>, f: string)
    requires |vs| <= |job.rows|
  {
    exists j {:trigger vs[j]} :: 0 <= j < |vs| && Promotes(vs[j]) && job.rows[j].staging == Some(f)
  }

  /** One of the verdicts wrote to the path. */
  ghost predicate Hit(job: Job, vs: seq<Verdict>, p: Path)
    requires Sized(job) && |vs| <= |job.rows|
  {
    exists j {:trigger vs[j]} :: 0 <= j < |vs| && Promotes(vs[j]) && Goal(job, j) == p
  }

  ghost predicate SameStaged(job: Job, st: State, st': State, vs: seq<Verdict>, f: string)
    requires |vs| <= |job.rows|
  {
    && (f in st'.staged <==> f in st.staged && !Taken(job, vs, f))
    && (f in st'.staged ==> st'.staged[f] == st.staged[f])
  }

  ghost predicate SameAccepted(job: Job, st: State, st': State, vs: seq<Verdict>, p: Path)
    requires Sized(job) && |vs| <= |job.rows|
  {
    !Hit(job, vs, p) ==>
        (p in st'.accepted <==> p in st.accepted) && (p in st.accepted ==> st'.accepted[p] == st.accepted[p])
  }

  /** The staged file of row `j` was there, and lies at its goal now. */
  ghost predicate Delivered(job: Job, st: State, st': State, j: nat)
    requires Sized(job) && j < |job.rows|
  {
    && OutputOk(st.staged, job.rows[j])
    && Goal(job, j) in st'.accepted && st'.accepted[Goal(job, j)] == job.rows[j].sanitizedSha
  }

  /** The files after the verdicts `vs`: exactly the promoted ones have moved. */
  ghost predicate Filed(job: Job, st: State, st': State, vs: seq<Verdict>) {
    && Sized(job) && |vs| <= |job.rows|
    && (forall f {:trigger SameStaged(job, st, st', vs, f)} :: SameStaged(job, st, st', vs, f))
    && (forall p {:trigger SameAccepted(job, st, st', vs, p)} :: SameAccepted(job, st, st', vs, p))
    && (forall j {:trigger Delivered(job, st, st', j)} :: 0 <= j < |vs| && Promotes(vs[j]) ==>
        Delivered(job, st, st', j))
  }

  lemma GoalsDiffer(job: Job, docs: Docs, i: nat, j: nat)
    requires Sized(job) && i < |job.rows| && j < |job.rows| && Separate(job, i, j) && Separate(job, j, i)
    requires Placed(job, docs, i) && Placed(job, docs, j)
    ensures Goal(job, i) != Goal(job, j)
  {
  }

  lemma CarriedFiles(job: Job, st: State, st': State, n: nat, v: Verdict)
    requires Sized(job) && n < |job.rows| && VerdictOn(job, st, n) == Ok(v)
    ensures var st'' := CarryOut(job, st', n, v);
            && (!Promotes(v) ==> st''.staged == st'.staged && st''.accepted == st'.accepted)
            && (Promotes(v) ==>
                  && OutputOk(st.staged, job.rows[n]) && st''.staged == st'.staged - {job.rows[n].staging.value}
                  && st''.accepted == st'.accepted[Goal(job, n) := job.rows[n].sanitizedSha])
  {
  }

  lemma TakenNext(job: Job, vs: seq<Verdict>, v: Verdict, f: string)
    requires |vs| < |job.rows|
    ensures Taken(job, vs + [v], f) <==> Taken(job, vs, f) || (Promotes(v) && job.rows[|vs|].staging == Some(f))
  {
    var all := vs + [v];
    assert all[|vs|] == v;
    if Taken(job, vs, f) {
      var j :| 0 <= j < |vs| && Promotes(vs[j]) && job.rows[j].staging == Some(f);
      assert all[j] == vs[j];
    }
    if Taken(job, all, f) {
      var j :| 0 <= j < |all| && Promotes(all[j]) && job.rows[j].staging == Some(f);
      if j < |vs| { assert vs[j] == all[j]; }
    }
  }

  lemma HitNext(job: Job, vs: seq<Verdict>, v: Verdict, p: Path)
    requires Sized(job) && |vs| < |job.rows|
    ensures Hit(job, vs + [v], p) <==> Hit(job, vs, p) || (Promotes(v) && Goal(job, |vs|) == p)
  {
    var all := vs + [v];
    assert all[|vs|] == v;
    if Hit(job, vs, p) {
      var j :| 0 <= j < |vs| && Promotes(vs[j]) && Goal(job, j) == p;
      assert all[j] == vs[j];
    }
    if Hit(job, all, p) {
      var j :| 0 <= j < |all| && Promotes(all[j]) && Goal(job, j) == p;
      if j < |vs| { assert vs[j] == all[j]; }
    }
  }

  lemma FiledStep(job: Job, st: State, st': State, vs: seq<Verdict>, v: Verdict)
    requires Setup(job, st) && |vs| < |job.rows| && Filed(job, st, st', vs) && VerdictOn(job, st, |vs|) == Ok(v)
    ensures Filed(job, st, CarryOut(job, st', |vs|, v), vs + [v])
  {
    var n, all := |vs|, vs + [v];
    var st'' := CarryOut(job, st', n, v);
    CarriedFiles(job, st, st', n, v);
    forall f ensures SameStaged(job, st, st'', all, f) {
      assert SameStaged(job, st, st', vs, f);
      TakenNext(job, vs, v, f);
    }
    forall p ensures SameAccepted(job, st, st'', all, p) {
      assert SameAccepted(job, st, st', vs, p);
      HitNext(job, vs, v, p);
    }
    forall j | 0 <= j < |all| && Promotes(all[j]) ensures Delivered(job, st, st'', j) {
      if j < n {
        assert all[j] == vs[j] && Delivered(job, st, st', j);
        assert Separate(job, j, n) && Separate(job, n, j) && Placed(job, st.docs, j) && Placed(job, st.docs, n);
        GoalsDiffer(job, st.docs, j, n);
      }
    }
  }

  lemma FiledStart(job: Job, st: State)
    requires Sized(job)
    ensures Filed(job, st, st, [])
  {
  }

  lemma {:induction false} FilesMoved(job: Job, st: State, n: nat)
    requires Setup(job, st) && n <= |job.rows|
    requires forall j {:trigger Granted(job, st, j)} :: 0 <= j < n ==> Granted(job, st, j)
    ensures var r := Applied(job, st, n);
            r.Ok? && |r.value.1| == n && Progress(job, st, r.value.0, r.value.1) && Filed(job, st, r.value.0, r.value.1)
  {
    FollowsPlan(job, st, n);
    if n == 0 {
      FiledStart(job, st);
    } else {
      FilesMoved(job, st, n - 1);
      assert Granted(job, st, n - 1);
      FiledNext(job, st, n - 1, Applied(job, st, n - 1).value.0, Applied(job, st, n - 1).value.1);
    }
  }

  lemma FiledNext(job: Job, st: State, n: nat, st': State, vs: seq<Verdict>)
    requires Setup(job, st) && n < |job.rows| && |vs| == n && Applied(job, st, n) == Ok((st', vs))
    requires Granted(job, st, n)
    requires Progress(job, st, st', vs) && Filed(job, st, st', vs)
    ensures var r := Applied(job, st, n + 1); r.Ok? && Filed(job, st, r.value.0, r.value.1)
  {
    FollowsOne(job, st, n, st', vs);
    FiledStep(job, st, st', vs, VerdictOn(job, st, n).value);
  }

  // ---- failure --------------------------------------------------------------------------------------

  ghost predicate NonePromotes(vs: seq<Verdict>) {
    forall j {:trigger vs[j]} :: 0 <= j < |vs| ==> !Promotes(vs[j])
  }

  /** What has happened when the first `k` rows have passed. */
  lemma PassedIs(job: Job, st: State, k: nat)
    requires Passes(job, st, k)
    ensures |Passed(job, st, k)| == k && Filed(job, st, RolledBack(job, st, k), Passed(job, st, k))
    ensures forall j {:trigger Passed(job, st, k)[j]} :: 0 <= j < k ==>
            VerdictOn(job, st, j) == Ok(Passed(job, st, k)[j])
  {
    PassesGranted(job, st, k);
    FilesMoved(job, st, k);
    var st', vs := Applied(job, st, k).value.0, Applied(job, st, k).value.1;
    forall j | 0 <= j < k ensures VerdictOn(job, st, j) == Ok(vs[j]) { assert Done(job, st, st', j, vs[j]); }
    var left := RolledBack(job, st, k);
    forall f ensures SameStaged(job, st, left, vs, f) { assert SameStaged(job, st, st', vs, f); }
    forall p ensures SameAccepted(job, st, left, vs, p) { assert SameAccepted(job, st, st', vs, p); }
    forall j | 0 <= j < |vs| && Promotes(vs[j])
      ensures Delivered(job, st, left, j)
    {
      assert Delivered(job, st, st', j);
    }
  }

  /** Rows that the loop got past were granted on the state at the start. */
  lemma PassesGranted(job: Job, st: State, k: nat)
    requires Passes(job, st, k)
    ensures forall j {:trigger Granted(job, st, j)} :: 0 <= j < k ==> Granted(job, st, j)
  {
    var at := StopsAt(job, st, k);
    StopsAtFirst(job, st, k);
    FollowsPlan(job, st, at);
    if at < k {
      FollowsOne(job, st, at, Applied(job, st, at).value.0, Applied(job, st, at).value.1);
      StaysFailed(job, st, at + 1, k);
    }
  }

  /**
   An apply that fails after `k` rows, because the next is refused, the process dies or the commit fails, leaves the
   documents as they were. The files are as they were exactly when none of those rows created or replaced a document.
   */
  lemma FailureLeavesFiles(job: Job, st: State, k: nat)
    requires Passes(job, st, k)
    ensures RolledBack(job, st, k).docs == st.docs
    ensures RolledBack(job, st, k) == st <==> NonePromotes(Passed(job, st, k))
  {
    PassedIs(job, st, k);
    var left, vs := RolledBack(job, st, k), Passed(job, st, k);
    if NonePromotes(vs) {
      forall f ensures f in left.staged <==> f in st.staged { assert SameStaged(job, st, left, vs, f); }
      forall f | f in left.staged ensures left.staged[f] == st.staged[f] { assert SameStaged(job, st, left, vs, f); }
      forall p ensures p in left.accepted <==> p in st.accepted { assert SameAccepted(job, st, left, vs, p); }
      forall p | p in left.accepted
        ensures left.accepted[p] == st.accepted[p]
      {
        assert SameAccepted(job, st, left, vs, p);
      }
      assert left.staged == st.staged && left.accepted == st.accepted;
    } else {
      var j :| 0 <= j < |vs| && Promotes(vs[j]);
      assert Delivered(job, st, left, j);
      assert SameStaged(job, st, left, vs, job.rows[j].staging.value);
      assert Taken(job, vs, job.rows[j].staging.value);
    }
  }

  // ---- trying again ---------------------------------------------------------------------------------

  /** Row `j` had its PDF moved before the failure. */
  predicate WasPromoted(job: Job, st: State, k: nat, j: nat)
    requires Sized(job) && k <= |job.rows|
  {
    j < |Passed(job, st, k)| && Promotes(Passed(job, st, k)[j])
  }

  /** The verdict on row `j` when the batch is tried again, its decisions possibly changed and coordinates completed. */
  lemma RetryVerdict(job: Job, st: State, k: nat, again: Job, j: nat)
    requires Passes(job, st, k) && j < |job.rows|
    requires Sized(again) && again.domain == job.domain && again.hits == job.hits
    requires SameButCoordinates(job.rows, again.rows)
    ensures var v, decision := VerdictOn(again, RolledBack(job, st, k), j), DecisionFor(again.decisions, job.hits[j]);
            if !WasPromoted(job, st, k, j) then v == VerdictOn(again, st, j)
            else if Passed(job, st, k)[j].Create? || decision == Some(Approved) then v == Err(OutputMissing)
            else if decision.None? then v == Err(Undecided)
            else v == Ok(Skip)
  {
    PassedIs(job, st, k);
    var left, doc, decision := RolledBack(job, st, k), DocAt(st.docs, job.hits[j]),
        DecisionFor(again.decisions, job.hits[j]);
    if WasPromoted(job, st, k, j) {
      OutputGone(job, st, k, j);
      assert VerdictOn(job, st, j) == Ok(Passed(job, st, k)[j]);
      DecideWithoutOutput(job.domain, doc, DecisionFor(job.decisions, job.hits[j]), decision, st.staged, left.staged,
                          job.rows[j], again.rows[j]);
    } else {
      OutputKept(job, st, k, j);
      DecideAlike(job.domain, doc, decision, st.staged, left.staged, again.rows[j]);
    }
  }

  lemma DecideAlike(
    domain: Domain, doc: Option<Doc>, decision: Option<Decision>, staged: map<string, string>,
    left: map<string, string>, row: Row)
    requires OutputOk(staged, row) == OutputOk(left, row)
    ensures Decide(domain, doc, decision, left, row) == Decide(domain, doc, decision, staged, row)
  {
  }

  /** A row that was carried out with its PDF, met again without it. */
  lemma DecideWithoutOutput(
    domain: Domain, doc: Option<Doc>, before: Option<Decision>, now: Option<Decision>, staged: map<string, string>,
    left: map<string, string>, row: Row, again: Row)
    requires again == row.(longitude := again.longitude, latitude := again.latitude) && !OutputOk(left, row)
    requires Decide(domain, doc, before, staged, row).Ok? && Promotes(Decide(domain, doc, before, staged, row).value)
    ensures var v := Decide(domain, doc, now, left, again);
            if Decide(domain, doc, before, staged, row).value.Create? || now == Some(Approved)
                then v == Err(OutputMissing)
            else if now.None? then v == Err(Undecided)
            else v == Ok(Skip)
  {
  }

  lemma OutputGone(job: Job, st: State, k: nat, j: nat)
    requires Passes(job, st, k) && j < |job.rows| && WasPromoted(job, st, k, j)
    ensures !OutputOk(RolledBack(job, st, k).staged, job.rows[j])
  {
    PassedIs(job, st, k);
    var left, vs := RolledBack(job, st, k), Passed(job, st, k);
    assert Delivered(job, st, left, j);
    assert Taken(job, vs, job.rows[j].staging.value) && SameStaged(job, st, left, vs, job.rows[j].staging.value);
  }

  lemma OutputKept(job: Job, st: State, k: nat, j: nat)
    requires Passes(job, st, k) && j < |job.rows| && !WasPromoted(job, st, k, j)
    ensures OutputOk(RolledBack(job, st, k).staged, job.rows[j]) == OutputOk(st.staged, job.rows[j])
  {
    PassedIs(job, st, k);
    var left, vs := RolledBack(job, st, k), Passed(job, st, k);
    if job.rows[j].staging.Some? {
      var f := job.rows[j].staging.value;
      assert SameStaged(job, st, left, vs, f);
      if Taken(job, vs, f) {
        var i :| 0 <= i < |vs| && Promotes(vs[i]) && job.rows[i].staging == Some(f);
        if i != j { RowsSeparate(job, st, i, j); }
      }
    }
  }

  lemma RowsSeparate(job: Job, st: State, i: nat, j: nat)
    requires Setup(job, st) && i < |job.rows| && j < |job.rows| && i != j
    ensures job.rows[i].staging.Some? ==> job.rows[i].staging != job.rows[j].staging
    ensures job.hits[i].Some? ==> job.hits[i] != job.hits[j]
  {
    assert Separate(job, i, j);
  }

  /**
   After a failure the batch can still be applied exactly when every row whose PDF was moved was a replacement whose
   decision is now a skip, and every other row is granted: a creation that was carried out before the failure can only
   be previewed anew.
   */
  lemma RetryExactly(job: Job, st: State, k: nat, again: Job)
    requires Passes(job, st, k) && Setup(again, st)
    requires again.domain == job.domain && again.hits == job.hits && SameButCoordinates(job.rows, again.rows)
    ensures Applied(again, RolledBack(job, st, k), |again.rows|).Ok? <==>
            forall j {:trigger Retriable(job, st, k, again, j)} :: 0 <= j < |job.rows| ==>
                Retriable(job, st, k, again, j)
  {
    var left, n := RolledBack(job, st, k), |again.rows|;
    PassedIs(job, st, k);
    assert Setup(again, left) by {
      forall j | 0 <= j < |again.rows| ensures Placed(again, left.docs, j) { assert Placed(again, st.docs, j); }
    }
    AppliesExactly(again, left);
    StopsAtFirst(again, left, n);
    forall j | 0 <= j < n
      ensures Granted(again, left, j) <==> Retriable(job, st, k, again, j)
    {
      RetryVerdict(job, st, k, again, j);
    }
    if StopsAt(again, left, n) == n {
      forall j | 0 <= j < n ensures Retriable(job, st, k, again, j) { assert Granted(again, left, j); }
    } else {
      assert !Granted(again, left, StopsAt(again, left, n));
    }
  }

  ghost predicate Retriable(job: Job, st: State, k: nat, again: Job, j: nat)
    requires Sized(job) && k <= |job.rows| && Sized(again) && |again.rows| == |job.rows| && j < |job.rows|
  {
    if WasPromoted(job, st, k, j)
    then Passed(job, st, k)[j].Replace? && DecisionFor(again.decisions, again.hits[j]) == Some(Skipped)
    else VerdictOn(again, st, j).Ok?
  }

  // ---- documents and their PDFs ---------------------------------------------------------------------

  /** The PDF of every document is where the document says, with the digest it says. */
  ghost predicate FilesMatch(st: State) {
    forall x {:trigger FileMatches(st, x)} :: x in st.docs ==> FileMatches(st, x)
  }

  ghost predicate FileMatches(st: State, x: nat)
    requires x in st.docs
  {
    st.docs[x].path in st.accepted && st.accepted[st.docs[x].path] == st.docs[x].sha
  }

  /** A KLGV plan's PDF is named after the plan. */
  ghost predicate OwnPaths(domain: Domain, docs: Docs) {
    domain.KlgvPlans? ==> forall x :: x in docs ==> docs[x].path == Plan(x)
  }

  /** The fresh names have not been used for files either. */
  ghost predicate FreshFiles(job: Job, st: State) {
    forall j {:trigger job.draws[j]} :: 0 <= j < |job.draws| ==>
        Plain(job.draws[j]) !in st.accepted && Plan(job.draws[j]) !in st.accepted
  }

  /** Only a KLGV replacement of `x` itself writes where the PDF of a document `x` lies. */
  lemma WhoWrites(job: Job, st: State, x: nat, j: nat)
    requires Setup(job, st) && FilesMatch(st) && OwnPaths(job.domain, st.docs) && FreshFiles(job, st) && x in st.docs
    requires j < |job.rows|
    ensures Goal(job, j) == st.docs[x].path <==> job.domain.KlgvPlans? && job.hits[j] == Some(x)
  {
    assert FileMatches(st, x) && Placed(job, st.docs, j);
    assert Plain(job.draws[j]) !in st.accepted && Plan(job.draws[j]) !in st.accepted;
  }

  /** Row `j` puts a different PDF in the place of the plan it replaces. */
  ghost predicate Spoils(job: Job, st: State, vs: seq<Verdict>, j: nat)
    requires Sized(job) && j < |vs| <= |job.rows|
  {
    && job.domain.KlgvPlans? && vs[j].Replace? && job.hits[j].Some? && job.hits[j].value in st.docs
    && job.rows[j].sanitizedSha != st.docs[job.hits[j].value].sha
  }

  /**
   A failed apply keeps documents and PDFs matched exactly when no replacement of a KLGV plan by a different PDF was
   carried out by then: such a PDF has taken the old one's place, while the plan still claims the old digest.
   */
  lemma FailureKeepsMatchIff(job: Job, st: State, k: nat)
    requires Passes(job, st, k) && FilesMatch(st) && OwnPaths(job.domain, st.docs) && FreshFiles(job, st)
    ensures |Passed(job, st, k)| == k
    ensures FilesMatch(RolledBack(job, st, k)) <==>
            forall j {:trigger Spoils(job, st, Passed(job, st, k), j)} :: 0 <= j < k ==>
                !Spoils(job, st, Passed(job, st, k), j)
  {
    PassedIs(job, st, k);
    var left, vs := RolledBack(job, st, k), Passed(job, st, k);
    if forall j {:trigger Spoils(job, st, vs, j)} :: 0 <= j < |vs| ==> !Spoils(job, st, vs, j) {
      forall x | x in left.docs ensures FileMatches(left, x) { UnspoiledMatches(job, st, left, vs, x); }
    } else {
      var j :| 0 <= j < |vs| && Spoils(job, st, vs, j);
      var x := job.hits[j].value;
      WhoWrites(job, st, x, j);
      assert Delivered(job, st, left, j);
      assert !FileMatches(left, x);
    }
  }

  lemma UnspoiledMatches(job: Job, st: State, left: State, vs: seq<Verdict>, x: nat)
    requires Setup(job, st) && FilesMatch(st) && OwnPaths(job.domain, st.docs) && FreshFiles(job, st)
    requires Filed(job, st, left, vs)
    requires forall j {:trigger vs[j]} :: 0 <= j < |vs| ==> VerdictOn(job, st, j) == Ok(vs[j])
    requires forall j {:trigger Spoils(job, st, vs, j)} :: 0 <= j < |vs| ==> !Spoils(job, st, vs, j)
    requires left.docs == st.docs && x in st.docs
    ensures FileMatches(left, x)
  {
    var p := st.docs[x].path;
    assert FileMatches(st, x) && SameAccepted(job, st, left, vs, p);
    if Hit(job, vs, p) {
      var j :| 0 <= j < |vs| && Promotes(vs[j]) && Goal(job, j) == p;
      WhoWrites(job, st, x, j);
      assert Delivered(job, st, left, j) && VerdictOn(job, st, j) == Ok(vs[j]) && Placed(job, st.docs, j);
      assert !Spoils(job, st, vs, j);
    }
  }

  /** A successful apply keeps documents and PDFs matched. */
  lemma SuccessKeepsMatch(job: Job, st: State)
    requires Setup(job, st) && Applied(job, st, |job.rows|).Ok? && FilesMatch(st) && OwnPaths(job.domain, st.docs)
    requires FreshFiles(job, st)
    ensures var st' := Applied(job, st, |job.rows|).value.0; FilesMatch(st') && OwnPaths(job.domain, st'.docs)
  {
    var n := |job.rows|;
    AppliesExactly(job, st);
    StopsAtFirst(job, st, n);
    FilesMoved(job, st, n);
    var st', vs := Applied(job, st, n).value.0, Applied(job, st, n).value.1;
    forall x | x in st'.docs ensures FileMatches(st', x) && (job.domain.KlgvPlans? ==> st'.docs[x].path == Plan(x)) {
      if x !in st.docs {
        NewMatches(job, st, st', vs, x);
      } else if Some(x) in job.hits {
        HitMatches(job, st, st', vs, x);
      } else {
        BystanderMatches(job, st, st', vs, x);
      }
    }
  }

  lemma NewMatches(job: Job, st: State, st': State, vs: seq<Verdict>, x: nat)
    requires Setup(job, st) && Progress(job, st, st', vs) && Filed(job, st, st', vs) && x in st'.docs && x !in st.docs
    ensures FileMatches(st', x) && (job.domain.KlgvPlans? ==> st'.docs[x].path == Plan(x))
  {
    assert Accounted(job, st, st', vs, x);
    var j :| 0 <= j < |vs| && job.draws[j] == x && vs[j].Create?;
    assert Done(job, st, st', j, vs[j]) && Delivered(job, st, st', j);
  }

  lemma HitMatches(job: Job, st: State, st': State, vs: seq<Verdict>, x: nat)
    requires Setup(job, st) && Progress(job, st, st', vs) && |vs| == |job.rows| && Filed(job, st, st', vs)
    requires FilesMatch(st) && OwnPaths(job.domain, st.docs) && FreshFiles(job, st) && x in st.docs && x in st'.docs
    requires Some(x) in job.hits
    ensures FileMatches(st', x) && (job.domain.KlgvPlans? ==> st'.docs[x].path == Plan(x))
  {
    var j :| 0 <= j < |job.hits| && job.hits[j] == Some(x);
    assert Done(job, st, st', j, vs[j]) && Placed(job, st.docs, j);
    if Promotes(vs[j]) {
      assert Delivered(job, st, st', j);
    } else {
      forall i | 0 <= i < |vs| && job.hits[i] == Some(x) ensures !Promotes(vs[i]) {
        if i != j { RowsSeparate(job, st, i, j); }
      }
      UnwrittenMatches(job, st, st', vs, x);
    }
  }

  lemma BystanderMatches(job: Job, st: State, st': State, vs: seq<Verdict>, x: nat)
    requires Setup(job, st) && Progress(job, st, st', vs) && Filed(job, st, st', vs)
    requires FilesMatch(st) && OwnPaths(job.domain, st.docs) && FreshFiles(job, st) && x in st.docs
    requires Some(x) !in job.hits
    ensures x in st'.docs && FileMatches(st', x) && (job.domain.KlgvPlans? ==> st'.docs[x].path == Plan(x))
  {
    assert Bystander(job, st, st', x);
    UnwrittenMatches(job, st, st', vs, x);
  }

  /** Where no row that promotes hits the document, its file is as it was. */
  lemma UnwrittenMatches(job: Job, st: State, st': State, vs: seq<Verdict>, x: nat)
    requires Setup(job, st) && Filed(job, st, st', vs)
    requires FilesMatch(st) && OwnPaths(job.domain, st.docs) && FreshFiles(job, st) && x in st.docs
    requires forall j {:trigger vs[j]} :: 0 <= j < |vs| && job.hits[j] == Some(x) ==> !Promotes(vs[j])
    ensures st.docs[x].path in st'.accepted && st'.accepted[st.docs[x].path] == st.docs[x].sha
  {
    var p := st.docs[x].path;
    assert FileMatches(st, x) && SameAccepted(job, st, st', vs, p);
    if Hit(job, vs, p) {
      var j :| 0 <= j < |vs| && Promotes(vs[j]) && Goal(job, j) == p;
      WhoWrites(job, st, x, j);
    }
  }

  // ---- an instance ----------------------------------------------------------------------------------

  /** A plan whose content row `r` would replace. */
  ghost predicate Replaces(r: Row, d: Doc) {
    r.action.Upsert? && RowKey(KlgvPlans, r) == DocKey(KlgvPlans, d) && r.sourceSha != d.sourceSha
    && r.sanitizedSha != d.sha
  }

  /** Two plans and two rows that would replace them, the first approved and the second undecided. */
  function TwoReplacements(d: Doc, r: Row, e: Doc, u: Row): (Job, State)
    requires r.staging.Some? && u.staging.Some?
  {
    (Job(KlgvPlans, [r, u], map[7 := Approved], [Some(7), Some(8)], [9, 10], 0),
     State(map[7 := d, 8 := e], map[r.staging.value := r.sanitizedSha, u.staging.value := u.sanitizedSha],
           map[Plan(7) := d.sha, Plan(8) := e.sha]))
  }

  ghost predicate Apt(d: Doc, r: Row, e: Doc, u: Row) {
    && Replaces(r, d) && Replaces(u, e) && DocKey(KlgvPlans, d) != DocKey(KlgvPlans, e) && d.path == Plan(7)
    && e.path == Plan(8)
    && r.staging.Some? && u.staging.Some? && r.staging != u.staging
  }

  lemma TwoHits(d: Doc, r: Row, e: Doc, u: Row)
    requires Apt(d, r, e, u)
    ensures Lookups(KlgvPlans, Prefer(7), map[7 := d, 8 := e], [r, u]) == [Some(7), Some(8)]
  {
    var docs := map[7 := d, 8 := e];
    assert Holders(KlgvPlans, docs, DocKey(KlgvPlans, d)) == {7};
    assert Holders(KlgvPlans, docs, DocKey(KlgvPlans, e)) == {8};
    FindIsHolder(KlgvPlans, Prefer(7), docs, DocKey(KlgvPlans, e));
    var hits := Lookups(KlgvPlans, Prefer(7), docs, [r, u]);
    assert hits[0] == Some(7) && hits[1] == Some(8);
  }

  lemma TwoFilesMatch(d: Doc, r: Row, e: Doc, u: Row)
    requires Apt(d, r, e, u)
    ensures var (job, st) := TwoReplacements(d, r, e, u); OutputsIntact(job.rows, st.staged) && FilesMatch(st)
  {
  }

  lemma TwoReplacementsReady(d: Doc, r: Row, e: Doc, u: Row)
    requires Apt(d, r, e, u)
    ensures var (job, st) := TwoReplacements(d, r, e, u); Ready(job, st, Prefer(7))
  {
    TwoHits(d, r, e, u);
  }

  /**
   An approved replacement followed by an undecided one: applying fails, and the first plan is left with the new PDF
   in place of its own. Yet the batch applies once both updates are skipped, which leaves that so.
   */
  lemma ReplacedThenUndecided(d: Doc, r: Row, e: Doc, u: Row)
    requires Apt(d, r, e, u)
    ensures var (job, st) := TwoReplacements(d, r, e, u);
            && Ready(job, st, Prefer(7)) && OutputsIntact(job.rows, st.staged) && FilesMatch(st)
            && Applied(job, st, 2) == Err(Undecided) && LeftBy(job, st).docs == st.docs
            && !FileMatches(LeftBy(job, st), 7)
            && var after := Applied(job.(decisions := map[7 := Skipped, 8 := Skipped]), LeftBy(job, st), 2);
               after.Ok? && !FilesMatch(after.value.0)
  {
    var (job, st) := TwoReplacements(d, r, e, u);
    TwoReplacementsReady(d, r, e, u);
    TwoFilesMatch(d, r, e, u);
    ReadyIsSetup(job, st, Prefer(7));
    TwoVerdicts(d, r, e, u);
    assert StopsAt(job, st, 0) == 0;
    assert StopsAt(job, st, 1) == 1;
    assert StopsAt(job, st, 2) == 1;
    AppliesExactly(job, st);
    assert Applied(job, st, 0) == Ok((st, []));
    AppliedNext(job, st, 0, st, []);
    PassedIs(job, st, 1);
    assert Passed(job, st, 1)[0] == Replace;
    assert Delivered(job, st, LeftBy(job, st), 0);
    SkippingBoth(job, st);
  }

  lemma TwoVerdicts(d: Doc, r: Row, e: Doc, u: Row)
    requires Apt(d, r, e, u)
    ensures var (job, st) := TwoReplacements(d, r, e, u);
            VerdictOn(job, st, 0) == Ok(Replace) && VerdictOn(job, st, 1) == Err(Undecided)
  {
  }

  lemma SkippingBoth(job: Job, st: State)
    requires Setup(job, st) && |job.rows| == 2 && job.hits == [Some(7), Some(8)] && 7 in st.docs && 8 in st.docs
    requires Passes(job, st, 1) && LeftBy(job, st) == RolledBack(job, st, 1) && |Passed(job, st, 1)| == 1
    requires Passed(job, st, 1)[0] == Replace
    requires job.rows[1].action.Upsert? && ContentChanged(st.docs[8], job.rows[1])
    requires LeftBy(job, st).docs == st.docs && !FileMatches(LeftBy(job, st), 7)
    ensures var after := Applied(job.(decisions := map[7 := Skipped, 8 := Skipped]), LeftBy(job, st), 2);
            after.Ok? && !FilesMatch(after.value.0)
  {
    var again := job.(decisions := map[7 := Skipped, 8 := Skipped]);
    var left := LeftBy(job, st);
    RetryVerdict(job, st, 1, again, 0);
    RetryVerdict(job, st, 1, again, 1);
    SkipChangesNothing(again, left, 0);
    SkipChangesNothing(again, left, 1);
    assert Applied(again, left, 0) == Ok((left, []));
    AppliedNext(again, left, 0, left, []);
    AppliedNext(again, left, 1, left, [] + [Skip]);
  }

  lemma SkipChangesNothing(job: Job, st: State, j: nat)
    requires Sized(job) && j < |job.rows|
    ensures CarryOut(job, st, j, Skip) == st
  {
    if job.hits[j].Some? && job.hits[j].value in st.docs {
      assert st.docs[job.hits[j].value := st.docs[job.hits[j].value]] == st.docs;
    }
  }

  // ---- the method -----------------------------------------------------------------------------------

  class DocumentTables {
    var st: State

    constructor (st: State)
      ensures this.st == st
    {
      this.st := st;
    }

    /** The loop, up to the end or to the row `at` that is refused. */
    method Loop(job: Job) returns (tally: Tally, at: nat, ghost vs: seq<Verdict>)
      requires Setup(job, st)
      modifies this
      ensures at <= |job.rows| && Applied(job, old(st), at) == Ok((st, vs)) && |vs| == at && tally == TallyOf(vs, at)
      ensures Progress(job, old(st), st, vs)
      ensures at < |job.rows| ==> VerdictOn(job, old(st), at).Err?
    {
      ghost var before := st;
      tally, vs, at := Tally(0, 0, 0, 0, 0), [], 0;
      ProgressStart(job, before);
      while at < |job.rows|
        invariant at <= |job.rows| && Applied(job, before, at) == Ok((st, vs)) && |vs| == at && tally == TallyOf(vs, at)
        invariant Progress(job, before, st, vs)
      {
        FollowsOne(job, before, at, st, vs);
        assert Waiting(job, before, st, at);
        WaitingAsPlanned(job, before, st, at);
        var v := VerdictOn(job, st, at);
        if v.Err? { return; }
        TallyNext(vs, v.value);
        st := CarryOut(job, st, at, v.value);
        tally, at, vs := Tallied(tally, v.value), at + 1, vs + [v.value];
      }
    }

    /** `_apply_documents` inside the transaction of `apply_preview`. */
    method Apply(domain: Domain, pick: Pick, rows: seq<Row>, decisions: Decisions, draws: seq<nat>, now: int)
      returns (r: Result<Tally, Failure>, ghost job: Job)
      requires Picks(pick) && |draws| == |rows| && OwnOutputs(rows) && FreshNames(st.docs, draws)
      requires RowsApart(domain, rows, Lookups(domain, pick, st.docs, rows))
      modifies this
      ensures job == Job(domain, rows, decisions, Lookups(domain, pick, old(st).docs, rows), draws, now)
      ensures Ready(job, old(st), pick)
      ensures st == LeftBy(job, old(st))
      ensures r.Err? ==> Applied(job, old(st), |rows|) == Err(r.error) && st.docs == old(st).docs
      ensures r.Ok? ==>
                var reached := Applied(job, old(st), |rows|);
                && reached.Ok? && st == reached.value.0
                && |reached.value.1| == |rows| && r.value == TallyOf(reached.value.1, |rows|)
    {
      var work := Job(domain, rows, decisions, Lookups(domain, pick, st.docs, rows), draws, now);
      job := work;
      var before := st;
      ReadyIsSetup(job, before, pick);
      var tally, at, vs := Loop(work);
      StopsHere(job, before, at, st, vs);
      if at < |rows| {
        var refused := VerdictOn(work, before, at);
        st := before.(staged := st.staged, accepted := st.accepted);
        r := Err(refused.error);
      } else {
        r := Ok(tally);
      }
    }

    /**
     `apply_preview` for a document batch whose preview was taken against `baseline`; `check` and `pick` are the
     choices of its two queries. A changed baseline changes nothing at all.
     */
    method ApplyPreview(
      domain: Domain, baseline: map<Key, Option<Mark>>, check: Pick, pick: Pick, rows: seq<Row>, decisions: Decisions,
      draws: seq<nat>, now: int)
      returns (r: Option<Result<Tally, Failure>>)
      requires Picks(pick) && |draws| == |rows| && OwnOutputs(rows) && FreshNames(st.docs, draws)
      requires RowsApart(domain, rows, Lookups(domain, pick, st.docs, rows))
      modifies this
      ensures r.None? <==> Baseline(domain, check, old(st).docs) != baseline
      ensures r.None? ==> st == old(st)
      ensures var job := Job(domain, rows, decisions, Lookups(domain, pick, old(st).docs, rows), draws, now);
              && (r.Some? ==> st == LeftBy(job, old(st)) && (r.value.Ok? <==> Applied(job, old(st), |rows|).Ok?))
              && (r.Some? && r.value.Ok? ==> st == Applied(job, old(st), |rows|).value.0)
              && (r.Some? && r.value.Err? ==> st.docs == old(st).docs)
    {
      if Baseline(domain, check, st.docs) != baseline { return None; }
      var applied, _ := Apply(domain, pick, rows, decisions, draws, now);
      r := Some(applied);
    }
  }

  /** The loop stops where `StopsAt` says. */
  lemma StopsHere(job: Job, st: State, at: nat, st': State, vs: seq<Verdict>)
    requires Setup(job, st) && at <= |job.rows| && Applied(job, st, at) == Ok((st', vs)) && |vs| == at
    requires Progress(job, st, st', vs)
    requires at < |job.rows| ==> VerdictOn(job, st, at).Err?
    ensures StopsAt(job, st, |job.rows|) == at
    ensures at < |job.rows| ==> Applied(job, st, |job.rows|) == Err(VerdictOn(job, st, at).error)
  {
    forall j | 0 <= j < at ensures Granted(job, st, j) { assert Done(job, st, st', j, vs[j]); }
    StopsAtIs(job, st, at, |job.rows|);
    AppliesExactly(job, st);
  }

  lemma {:induction false} StopsAtIs(job: Job, st: State, at: nat, n: nat)
    requires Sized(job) && at <= n <= |job.rows|
    requires forall j {:trigger Granted(job, st, j)} :: 0 <= j < at ==> Granted(job, st, j)
    requires at < n ==> VerdictOn(job, st, at).Err?
    ensures StopsAt(job, st, n) == at
    decreases n
  {
    if n > 0 {
      StopsAtIs(job, st, if at == n then n - 1 else at, n - 1);
      assert at == n ==> Granted(job, st, n - 1);
    }
  }

  lemma TallyNext(vs: seq<Verdict>, v: Verdict)
    ensures TallyOf(vs + [v], |vs| + 1) == Tallied(TallyOf(vs, |vs|), v)
  {
    TallyPrefix(vs, vs + [v], |vs|);
  }

  lemma {:induction false} TallyPrefix(vs: seq<Verdict>, ws: seq<Verdict>, n: nat)
    requires n <= |vs| <= |ws| && forall j :: 0 <= j < n ==> vs[j] == ws[j]
    ensures TallyOf(vs, n) == TallyOf(ws, n)
  {
    if n > 0 { TallyPrefix(vs, ws, n - 1); }
  }
}
