/** Phonebook imports: reviewing duplicates row by row, then applying the reviewed batch. */
module PhonebookImport {
  import opened Common

  datatype Values = Values(first: string, last: string, unit: string, function_: string, phone: string,
      station: Option<nat>)
  datatype Entry = Entry(dept: nat, values: Values)

  type Book = map<nat, Entry>

  /** An existing entry offered as a possible duplicate, with its fingerprint at preview time. */
  datatype Candidate = Candidate(id: nat, fingerprint: string)

  datatype Resolution = Create | Skip | Pending | Update(target: nat, fingerprint: string)

  datatype Row = Row(values: Values, candidates: seq<Candidate>, index: nat, resolution: Resolution)

  datatype ReviewAction = NextCandidate | ChooseCreate | ChooseSkip | ChooseUpdate

  /**
   The surroundings: the duplicate search, the entry fingerprint, and what validation stores for given values, if it
   accepts them.
   */
  datatype Rules = Rules(
    find: (Values, nat, Book) -> seq<nat>, fingerprint: Entry -> string, clean: Values -> Option<Values>)

  /** The search returns entries of the department. */
  ghost predicate FindOk(rules: Rules) {
    forall v: Values, dept: nat, book: Book, x: nat :: x in rules.find(v, dept, book) ==>
        x in book && book[x].dept == dept
  }

  // ---- preview --------------------------------------------------------------------------------------

  function Offer(rules: Rules, dept: nat, book: Book, v: Values): seq<Candidate>
    requires FindOk(rules)
  {
    var ids := rules.find(v, dept, book);
    seq(|ids|, i requires 0 <= i < |ids| => assert ids[i] in ids; Candidate(ids[i], rules.fingerprint(book[ids[i]])))
  }

  /** `_phonebook_intent`: rows with possible duplicates await review, the others will be created. */
  function Intent(rules: Rules, dept: nat, book: Book, source: seq<Values>): seq<Row>
    requires FindOk(rules)
  {
    seq(|source|, i requires 0 <= i < |source| =>
      var offered := Offer(rules, dept, book, source[i]);
      Row(source[i], offered, 0, if offered == [] then Create else Pending))
  }

  /** `_phonebook_baseline`. */
  function Baseline(rules: Rules, dept: nat, book: Book): map<nat, string> {
    map x | x in book && book[x].dept == dept :: rules.fingerprint(book[x])
  }

  // ---- review ---------------------------------------------------------------------------------------

  predicate Targets(row: Row, x: nat) {
    row.resolution.Update? && row.resolution.target == x
  }

  /** `set_phonebook_reconciliation`. */
  function Review(rows: seq<Row>, i: int, a: ReviewAction): Option<seq<Row>> {
    if i < 0 || i >= |rows| || !rows[i].resolution.Pending? then None
    else
      var row := rows[i];
      match a
      case NextCandidate =>
        if row.index + 1 >= |row.candidates| then None else Some(rows[i := row.(index := row.index + 1)])
      case ChooseCreate => Some(rows[i := row.(resolution := Create)])
      case ChooseSkip => Some(rows[i := row.(resolution := Skip)])
      case ChooseUpdate =>
        if row.index >= |row.candidates| then None
        else
          var c := row.candidates[row.index];
          if exists r :: r in rows && Targets(r, c.id) then None
          else Some(rows[i := row.(resolution := Update(c.id, c.fingerprint))])
  }

  /** Pending rows show a candidate; updates aim at a candidate of their row; no two rows update the same entry. */
  ghost predicate ReviewOk(rows: seq<Row>) {
    && (forall i :: 0 <= i < |rows| && rows[i].resolution.Pending? ==> rows[i].index < |rows[i].candidates|)
    && (forall i :: 0 <= i < |rows| && rows[i].resolution.Update? ==>
          Candidate(rows[i].resolution.target, rows[i].resolution.fingerprint) in rows[i].candidates)
    && (forall i, j :: 0 <= i < j < |rows| && rows[i].resolution.Update? && rows[j].resolution.Update? ==>
          rows[i].resolution.target != rows[j].resolution.target)
  }

  function Weight(row: Row): nat {
    if row.resolution.Pending? && row.index < |row.candidates| then 1 + |row.candidates| - row.index else 0
  }

  /** How much reviewing is left. */
  function Measure(rows: seq<Row>): nat {
    if rows == [] then 0 else Measure(rows[..|rows| - 1]) + Weight(rows[|rows| - 1])
  }

  lemma {:induction false} MeasureUpdate(rows: seq<Row>, i: nat, row: Row)
    requires i < |rows|
    ensures Measure(rows[i := row]) == Measure(rows) - Weight(rows[i]) + Weight(row)
  {
    var rows' := rows[i := row];
    if i == |rows| - 1 {
      assert rows'[..|rows| - 1] == rows[..|rows| - 1];
    } else {
      MeasureUpdate(rows[..|rows| - 1], i, row);
      assert rows'[..|rows| - 1] == rows[..|rows| - 1][i := row];
    }
  }

  /** Every accepted action keeps the review sound and strictly lowers the measure; what is offered never changes. */
  lemma ReviewStep(rows: seq<Row>, i: int, a: ReviewAction)
    requires ReviewOk(rows) && Review(rows, i, a).Some?
    ensures var rows' := Review(rows, i, a).value;
            ReviewOk(rows') && Measure(rows') < Measure(rows) && |rows'| == |rows|
            && forall j :: 0 <= j < |rows| ==>
                rows'[j].values == rows[j].values && rows'[j].candidates == rows[j].candidates
  {
    var rows' := Review(rows, i, a).value;
    MeasureUpdate(rows, i, rows'[i]);
    if a.ChooseUpdate? {
      forall j | 0 <= j < |rows| && j != i && rows[j].resolution.Update?
        ensures rows[j].resolution.target != rows'[i].resolution.target
      {
        assert rows[j] in rows;
      }
    }
  }

  /** The accepted actions of a review, refused ones being skipped over. */
  function ReviewRun(rows: seq<Row>, actions: seq<(int, ReviewAction)>): (seq<Row>, nat)
    decreases |actions|
  {
    if actions == [] then (rows, 0)
    else
      var next := Review(rows, actions[0].0, actions[0].1);
      if next.None? then ReviewRun(rows, actions[1..])
      else var (end, n) := ReviewRun(next.value, actions[1..]); (end, n + 1)
  }

  ghost predicate SameOffers(rows: seq<Row>, rows': seq<Row>) {
    |rows'| == |rows| && forall j :: 0 <= j < |rows| ==>
      rows'[j].values == rows[j].values && rows'[j].candidates == rows[j].candidates
  }

  lemma {:induction false} ReviewRunSound(rows: seq<Row>, actions: seq<(int, ReviewAction)>)
    requires ReviewOk(rows)
    ensures var (end, n) := ReviewRun(rows, actions);
            ReviewOk(end) && SameOffers(rows, end) && Measure(end) + n <= Measure(rows)
    decreases |actions|
  {
    if actions != [] {
      var next := Review(rows, actions[0].0, actions[0].1);
      if next.Some? {
        ReviewStep(rows, actions[0].0, actions[0].1);
        ReviewRunSound(next.value, actions[1..]);
      } else {
        ReviewRunSound(rows, actions[1..]);
      }
    }
  }

  /**
   Every reachable review: sound, on the rows first offered, after at most as many actions as there were offers and
   rows.
   */
  lemma ReachableReviews(rules: Rules, dept: nat, book: Book, source: seq<Values>, actions: seq<(int, ReviewAction)>)
    requires FindOk(rules)
    ensures var rows := Intent(rules, dept, book, source);
            var (end, n) := ReviewRun(rows, actions);
            ReviewOk(end) && SameOffers(rows, end) && n <= Measure(rows) && TargetsIn(rules, dept, book, end)
  {
    var rows := Intent(rules, dept, book, source);
    ReviewRunSound(rows, actions);
    var end := ReviewRun(rows, actions).0;
    forall i | 0 <= i < |end| && end[i].resolution.Update? ensures TargetOk(rules, dept, book, end[i]) {
      var c := Candidate(end[i].resolution.target, end[i].resolution.fingerprint);
      assert c in rows[i].candidates;
      OfferedExist(rules, dept, book, source[i], c);
    }
  }

  lemma OfferedExist(rules: Rules, dept: nat, book: Book, v: Values, c: Candidate)
    requires FindOk(rules) && c in Offer(rules, dept, book, v)
    ensures c.id in book && book[c.id].dept == dept && rules.fingerprint(book[c.id]) == c.fingerprint
  {
    var ids := rules.find(v, dept, book);
    var i :| 0 <= i < |ids| && Offer(rules, dept, book, v)[i] == c;
    assert ids[i] in ids;
  }

  /** An update aims at an entry of the department whose fingerprint is the one reviewed. */
  predicate TargetOk(rules: Rules, dept: nat, book: Book, row: Row) {
    row.resolution.Update? ==>
      var t := row.resolution.target;
      t in book && book[t].dept == dept && rules.fingerprint(book[t]) == row.resolution.fingerprint
  }

  ghost predicate TargetsIn(rules: Rules, dept: nat, book: Book, rows: seq<Row>) {
    forall i :: 0 <= i < |rows| ==> TargetOk(rules, dept, book, rows[i])
  }

  /** An unchanged baseline keeps the reviewed targets valid, whatever happened to other departments. */
  lemma BaselineKeepsTargets(rules: Rules, dept: nat, book: Book, book': Book, rows: seq<Row>)
    requires TargetsIn(rules, dept, book, rows) && Baseline(rules, dept, book) == Baseline(rules, dept, book')
    ensures TargetsIn(rules, dept, book', rows)
  {
    forall i | 0 <= i < |rows| && rows[i].resolution.Update? ensures TargetOk(rules, dept, book', rows[i]) {
      assert TargetOk(rules, dept, book, rows[i]);
      var t := rows[i].resolution.target;
      assert t in Baseline(rules, dept, book) && t in Baseline(rules, dept, book');
      assert Baseline(rules, dept, book)[t] == Baseline(rules, dept, book')[t];
    }
  }

  // ---- apply ----------------------------------------------------------------------------------------

  datatype ApplyError = ReviewIncomplete | ScopeChanged | EntryChanged | ValuesRejected

  datatype Tally = Tally(add: nat, update: nat, same: nat)

  predicate Writable(rules: Rules, stations: set<nat>, row: Row) {
    (row.values.station.Some? ==> row.values.station.value in stations) && rules.clean(row.values).Some?
  }

  /** The batch can be applied: nothing pending, and every row to write still has its station and valid values. */
  predicate Ready(rules: Rules, stations: set<nat>, rows: seq<Row>) {
    forall i :: 0 <= i < |rows| ==> RowReady(rules, stations, rows[i])
  }

  predicate RowReady(rules: Rules, stations: set<nat>, row: Row) {
    !row.resolution.Pending? && (!row.resolution.Skip? ==> Writable(rules, stations, row))
  }

  function CountBy(rows: seq<Row>): Tally {
    if rows == [] then Tally(0, 0, 0)
    else
      var t := CountBy(rows[..|rows| - 1]);
      match rows[|rows| - 1].resolution
      case Create => t.(add := t.add + 1)
      case Update(_, _) => t.(update := t.update + 1)
      case _ => t.(same := t.same + 1)
  }

  lemma {:induction false} CountsPartition(rows: seq<Row>)
    ensures CountBy(rows).add + CountBy(rows).update + CountBy(rows).same == |rows|
  {
    if rows != [] { CountsPartition(rows[..|rows| - 1]); }
  }

  /** Fresh identities for the entries to create: distinct, and never seen before, be it as an entry or as a target. */
  ghost predicate Fresh(book: Book, rows: seq<Row>, ids: seq<nat>) {
    && (forall i :: 0 <= i < |ids| ==> ids[i] !in book)
    && (forall i, j :: 0 <= i < |ids| && 0 <= j < |rows| ==> !Targets(rows[j], ids[i]))
    && (forall i, j :: 0 <= i < j < |ids| ==> ids[i] != ids[j])
  }

  /** Where row `i` is written, if anywhere. */
  function Place(rows: seq<Row>, ids: seq<nat>, i: nat): Option<nat>
    requires i < |rows| == |ids|
  {
    match rows[i].resolution case Create => Some(ids[i]) case Update(t, _) => Some(t) case _ => None
  }

  /** The book after the first `n` rows: each written where it belongs, everything else untouched. */
  ghost predicate Applied(rules: Rules, dept: nat, book: Book, book': Book, rows: seq<Row>, ids: seq<nat>, n: nat)
    requires n <= |rows| == |ids|
  {
    && (forall i :: 0 <= i < n && Place(rows, ids, i).Some? ==>
          var x := Place(rows, ids, i).value;
          x in book' && rules.clean(rows[i].values).Some? && book'[x] == Entry(dept, rules.clean(rows[i].values).value))
    && (forall x :: x in book && (forall i :: 0 <= i < n ==> Place(rows, ids, i) != Some(x)) ==>
        x in book' && book'[x] == book[x])
    && (forall x :: x in book' ==> x in book || exists i :: 0 <= i < n && Place(rows, ids, i) == Some(x))
  }

  /** The book after the first `n` rows, one write after the other. */
  function After(rules: Rules, dept: nat, book: Book, rows: seq<Row>, ids: seq<nat>, n: nat): Book
    requires n <= |rows| == |ids|
  {
    if n == 0 then book
    else
      Placed(rules, dept, After(rules, dept, book, rows, ids, n - 1), rows[n - 1], Place(rows, ids, n - 1))
  }

  function Placed(rules: Rules, dept: nat, book: Book, row: Row, place: Option<nat>): Book {
    var clean := rules.clean(row.values);
    if place.None? || clean.None? then book else book[place.value := Entry(dept, clean.value)]
  }

  lemma AppliedStep(rules: Rules, dept: nat, book: Book, prior: Book, rows: seq<Row>, ids: seq<nat>, n: nat)
    requires 0 < n <= |rows| == |ids| && Applied(rules, dept, book, prior, rows, ids, n - 1)
    requires Place(rows, ids, n - 1).Some? ==> rules.clean(rows[n - 1].values).Some?
    requires forall i :: 0 <= i < n - 1 && Place(rows, ids, i).Some? ==> Place(rows, ids, i) != Place(rows, ids, n - 1)
    ensures Applied(rules, dept, book, Placed(rules, dept, prior, rows[n - 1], Place(rows, ids, n - 1)), rows, ids, n)
  {
    var after := Placed(rules, dept, prior, rows[n - 1], Place(rows, ids, n - 1));
    forall x | x in after ensures x in book || exists i :: 0 <= i < n && Place(rows, ids, i) == Some(x) {
      if x !in book && x in prior {
        var i :| 0 <= i < n - 1 && Place(rows, ids, i) == Some(x);
      }
    }
    forall x | x in book && (forall i :: 0 <= i < n ==> Place(rows, ids, i) != Some(x))
      ensures x in after && after[x] == book[x]
    {
      assert Place(rows, ids, n - 1) != Some(x);
    }
  }

  /** No write of the batch undoes an earlier one. */
  lemma {:induction false} AfterIsApplied(rules: Rules, dept: nat, book: Book, rows: seq<Row>, ids: seq<nat>, n: nat)
    requires n <= |rows| == |ids| && PlacesApart(rows, ids)
    requires forall i :: 0 <= i < n && Place(rows, ids, i).Some? ==> rules.clean(rows[i].values).Some?
    ensures Applied(rules, dept, book, After(rules, dept, book, rows, ids, n), rows, ids, n)
  {
    if n > 0 {
      AfterIsApplied(rules, dept, book, rows, ids, n - 1);
      AppliedStep(rules, dept, book, After(rules, dept, book, rows, ids, n - 1), rows, ids, n);
    }
  }

  /** No two rows are written to the same place. */
  ghost predicate PlacesApart(rows: seq<Row>, ids: seq<nat>)
    requires |rows| == |ids|
  {
    forall i, j :: 0 <= i < j < |rows| && Place(rows, ids, i).Some? ==> Place(rows, ids, i) != Place(rows, ids, j)
  }

  lemma PlacesDistinct(book: Book, rows: seq<Row>, ids: seq<nat>)
    requires |rows| == |ids| && ReviewOk(rows) && Fresh(book, rows, ids)
    ensures PlacesApart(rows, ids)
  {
    forall i, j | 0 <= i < j < |rows| && Place(rows, ids, i).Some? ensures Place(rows, ids, i) != Place(rows, ids, j) {
      assert !Targets(rows[j], ids[i]) && !Targets(rows[i], ids[j]);
    }
  }

  class Phonebook {
    var book: Book

    constructor (book: Book)
      ensures this.book == book
    {
      this.book := book;
    }

    /** The loop body of `_apply_phonebook` for a row that is not skipped; `id` names the entry it would create. */
    method ApplyRow(rules: Rules, dept: nat, stations: set<nat>, row: Row, id: nat) returns (r: Option<ApplyError>)
      requires row.resolution.Create? || row.resolution.Update?
      modifies this
      ensures r.None? <==> Writable(rules, stations, row) && TargetOk(rules, dept, old(book), row)
      ensures r.None? ==> book == old(book)[(if row.resolution.Create? then id else row.resolution.target) :=
                                              Entry(dept, rules.clean(row.values).value)]
      ensures r.Some? ==> book == old(book)
      ensures r == Some(EntryChanged) ==> !TargetOk(rules, dept, old(book), row)
    {
      if row.values.station.Some? && row.values.station.value !in stations { return Some(ScopeChanged); }
      var place := id;
      if row.resolution.Update? {
        place := row.resolution.target;
        if place !in book || book[place].dept != dept || rules.fingerprint(book[place]) != row.resolution.fingerprint {
          return Some(EntryChanged);
        }
      }
      var clean := rules.clean(row.values);
      if clean.None? { return Some(ValuesRejected); }
      book := book[place := Entry(dept, clean.value)];
      r := None;
    }

    /**
     `_apply_phonebook` for a reviewed batch: it succeeds exactly when the batch is ready and every target was still as
     reviewed before the first row, and then writes each row where it belongs; otherwise the book is unchanged. No row
     of the batch ever finds its target changed by an earlier one.
     */
    method Apply(rules: Rules, dept: nat, stations: set<nat>, rows: seq<Row>, ids: seq<nat>)
      returns (r: Result<Tally, ApplyError>)
      requires ReviewOk(rows) && |ids| == |rows| && Fresh(book, rows, ids)
      modifies this
      ensures r.Ok? <==> Ready(rules, stations, rows) && TargetsIn(rules, dept, old(book), rows)
      ensures r.Ok? ==> Applied(rules, dept, old(book), book, rows, ids, |rows|) && r.value == CountBy(rows)
      ensures r.Err? ==> book == old(book)
      ensures r == Err(EntryChanged) ==> !TargetsIn(rules, dept, old(book), rows)
    {
      if exists row :: row in rows && row.resolution.Pending? { return Err(ReviewIncomplete); }
      var savepoint := book;
      var failure, tally, at := ApplyRows(rules, dept, stations, rows, ids);
      if failure.Some? {
        book := savepoint;
        return Err(failure.value);
      }
      PlacesDistinct(savepoint, rows, ids);
      AfterIsApplied(rules, dept, savepoint, rows, ids, |rows|);
      r := Ok(tally);
    }

    /** The loop: it ends at the first row `at` that cannot be written. */
    method ApplyRows(rules: Rules, dept: nat, stations: set<nat>, rows: seq<Row>, ids: seq<nat>)
      returns (failure: Option<ApplyError>, tally: Tally, at: nat)
      requires ReviewOk(rows) && |ids| == |rows| && Fresh(book, rows, ids)
      requires forall i :: 0 <= i < |rows| ==> !rows[i].resolution.Pending?
      modifies this
      ensures failure.None? ==> book == After(rules, dept, old(book), rows, ids, |rows|) && tally == CountBy(rows)
      ensures failure.None? ==> forall j :: 0 <= j < |rows| ==> Passes(rules, dept, stations, old(book), rows[j])
      ensures failure.Some? ==> at < |rows| && !Passes(rules, dept, stations, old(book), rows[at])
      ensures failure == Some(EntryChanged) ==> !TargetOk(rules, dept, old(book), rows[at])
    {
      ghost var start := book;
      tally, at := Tally(0, 0, 0), 0;
      while at < |rows|
        invariant at <= |rows| && book == After(rules, dept, start, rows, ids, at) && tally == CountBy(rows[..at])
        invariant forall j :: 0 <= j < at ==> Passes(rules, dept, stations, start, rows[j])
      {
        var row := rows[at];
        assert rows[..at + 1][..at] == rows[..at];
        if row.resolution.Skip? {
          tally := tally.(same := tally.same + 1);
        } else {
          TargetUntouched(rules, dept, start, stations, rows, ids, at);
          failure := ApplyRow(rules, dept, stations, row, ids[at]);
          if failure.Some? { return; }
          if row.resolution.Create? {
            tally := tally.(add := tally.add + 1);
          } else {
            tally := tally.(update := tally.update + 1);
          }
        }
        at := at + 1;
      }
      assert rows[..at] == rows;
      failure := None;
    }
  }

  /** The row can be written, and what it updates is as it was reviewed. */
  predicate Passes(rules: Rules, dept: nat, stations: set<nat>, book: Book, row: Row) {
    RowReady(rules, stations, row) && TargetOk(rules, dept, book, row)
  }

  /** The rows applied so far have left a later row's target exactly as it was, present or absent. */
  lemma TargetUntouched(
    rules: Rules, dept: nat, book: Book, stations: set<nat>, rows: seq<Row>, ids: seq<nat>, n: nat)
    requires n < |rows| == |ids| && ReviewOk(rows) && Fresh(book, rows, ids)
    requires forall j :: 0 <= j < n ==> Passes(rules, dept, stations, book, rows[j])
    ensures TargetOk(rules, dept, After(rules, dept, book, rows, ids, n), rows[n]) <==>
            TargetOk(rules, dept, book, rows[n])
  {
    var book' := After(rules, dept, book, rows, ids, n);
    PlacesDistinct(book, rows, ids);
    AfterIsApplied(rules, dept, book, rows, ids, n);
    if rows[n].resolution.Update? {
      var t := rows[n].resolution.target;
      assert Place(rows, ids, n) == Some(t);
      assert (t in book' <==> t in book) && (t in book ==> book'[t] == book[t]);
    }
  }

  // ---- what the reviewer's choices lead to ----------------------------------------------------------

  /** Each row as first offered: its possible duplicates with their fingerprints, to be created if there are none. */
  lemma IntentMeans(rules: Rules, dept: nat, book: Book, source: seq<Values>, i: nat)
    requires FindOk(rules) && i < |source|
    ensures var rows, ids := Intent(rules, dept, book, source), rules.find(source[i], dept, book);
            && |rows| == |source| && rows[i].values == source[i] && rows[i].index == 0
            && |rows[i].candidates| == |ids|
            && (forall k :: 0 <= k < |ids| ==>
                  && ids[k] in book
                  && rows[i].candidates[k] == Candidate(ids[k], rules.fingerprint(book[ids[k]])))
            && rows[i].resolution == if |ids| == 0 then Create else Pending
  {
    var ids := rules.find(source[i], dept, book);
    forall k | 0 <= k < |ids| ensures ids[k] in book { assert ids[k] in ids; }
  }

  /** A choice is open as long as its row is undecided and shows, or has after this one, a candidate for it. */
  ghost predicate Open(rows: seq<Row>, i: int, a: ReviewAction) {
    && 0 <= i < |rows| && rows[i].resolution == Pending
    && match a
       case NextCandidate => rows[i].index + 1 < |rows[i].candidates|
       case ChooseCreate => true
       case ChooseSkip => true
       case ChooseUpdate =>
         && rows[i].index < |rows[i].candidates|
         && forall j :: 0 <= j < |rows| && rows[j].resolution.Update? ==>
              rows[j].resolution.target != rows[i].candidates[rows[i].index].id
  }

  /** What the choice makes of a row. */
  predicate Chosen(row: Row, a: ReviewAction, row': Row) {
    && row'.values == row.values && row'.candidates == row.candidates
    && match a
       case NextCandidate => row'.index == row.index + 1 && row'.resolution.Pending?
       case ChooseCreate => row'.index == row.index && row'.resolution.Create?
       case ChooseSkip => row'.index == row.index && row'.resolution.Skip?
       case ChooseUpdate =>
         && row'.index == row.index && row.index < |row.candidates| && row'.resolution.Update?
         && row'.resolution.target == row.candidates[row.index].id
         && row'.resolution.fingerprint == row.candidates[row.index].fingerprint
  }

  /** An action is accepted exactly when it is open; it then does to its row what was chosen, and to no other. */
  lemma ReviewMeans(rows: seq<Row>, i: int, a: ReviewAction)
    ensures Review(rows, i, a).Some? <==> Open(rows, i, a)
    ensures Review(rows, i, a).Some? ==>
              var rows' := Review(rows, i, a).value;
              && |rows'| == |rows| && Chosen(rows[i], a, rows'[i])
              && forall j :: 0 <= j < |rows| && j != i ==> rows'[j] == rows[j]
  {
    if 0 <= i < |rows| && rows[i].resolution.Pending? && a.ChooseUpdate? && rows[i].index < |rows[i].candidates| {
      var x := rows[i].candidates[rows[i].index].id;
      if r :| r in rows && Targets(r, x) {
        var j :| 0 <= j < |rows| && rows[j] == r;
        assert rows[j].resolution.Update? && rows[j].resolution.target == x;
      } else {
        forall j | 0 <= j < |rows| && rows[j].resolution.Update? ensures rows[j].resolution.target != x {
          assert rows[j] in rows;
        }
      }
    }
  }

  /** A decided row stays as decided, whatever actions follow. */
  lemma {:induction false} DecidedStays(rows: seq<Row>, actions: seq<(int, ReviewAction)>, i: nat)
    requires i < |rows| && !rows[i].resolution.Pending?
    ensures var end := ReviewRun(rows, actions).0; |end| == |rows| && end[i] == rows[i]
    decreases |actions|
  {
    if actions != [] {
      var next := Review(rows, actions[0].0, actions[0].1);
      if next.Some? {
        ReviewMeans(rows, actions[0].0, actions[0].1);
        DecidedStays(next.value, actions[1..], i);
      } else {
        DecidedStays(rows, actions[1..], i);
      }
    }
  }

  /** Writing the row `i` of a reviewed batch, told from its resolution. */
  ghost predicate Wrote(rules: Rules, dept: nat, book: Book, book': Book, row: Row, id: nat) {
    match row.resolution
    case Create =>
      id !in book && id in book' && rules.clean(row.values) == Some(book'[id].values) && book'[id].dept == dept
    case Update(target, _) =>
      target in book' && rules.clean(row.values) == Some(book'[target].values) && book'[target].dept == dept
    case _ => id !in book'
  }

  lemma NothingCreatedFor(rules: Rules, dept: nat, book: Book, book': Book, rows: seq<Row>, ids: seq<nat>, i: nat)
    requires i < |rows| == |ids| && Applied(rules, dept, book, book', rows, ids, |rows|) && Fresh(book, rows, ids)
    requires !rows[i].resolution.Create?
    ensures ids[i] !in book'
  {
    forall j | 0 <= j < |rows| ensures Place(rows, ids, j) != Some(ids[i]) {
      assert !Targets(rows[j], ids[i]);
      if j < i { assert ids[j] != ids[i]; } else if i < j { assert ids[i] != ids[j]; }
    }
  }

  lemma AppliedWrote(rules: Rules, dept: nat, book: Book, book': Book, rows: seq<Row>, ids: seq<nat>, i: nat)
    requires i < |rows| == |ids| && Applied(rules, dept, book, book', rows, ids, |rows|) && Fresh(book, rows, ids)
    ensures Wrote(rules, dept, book, book', rows[i], ids[i])
  {
    if rows[i].resolution.Create? {
      assert Place(rows, ids, i) == Some(ids[i]);
    } else {
      assert rows[i].resolution.Update? ==> Place(rows, ids, i).Some?;
      NothingCreatedFor(rules, dept, book, book', rows, ids, i);
    }
  }

  /**
   From choice to book: a choice accepted on a row is carried out when the batch, after whatever further review, is
   applied. Choosing creation adds an entry with the row's values; choosing an update rewrites the candidate shown at
   the time, and no other entry for this row; skipping adds nothing for it.
   */
  lemma ChoiceIsCarriedOut(
      rules: Rules, dept: nat, book: Book, book': Book, rows: seq<Row>, i: int, a: ReviewAction,
      later: seq<(int, ReviewAction)>, ids: seq<nat>)
    requires Review(rows, i, a).Some? && !a.NextCandidate?
    requires var end := ReviewRun(Review(rows, i, a).value, later).0;
             |end| == |ids| && Fresh(book, end, ids) && Applied(rules, dept, book, book', end, ids, |end|)
    ensures 0 <= i < |rows| == |ids|
    ensures a.ChooseCreate? ==>
              ids[i] !in book && ids[i] in book' && book'[ids[i]].dept == dept
              && Some(book'[ids[i]].values) == rules.clean(rows[i].values)
    ensures a.ChooseUpdate? ==>
              && rows[i].index < |rows[i].candidates|
              && var x := rows[i].candidates[rows[i].index].id;
              && x in book' && book'[x].dept == dept && Some(book'[x].values) == rules.clean(rows[i].values)
              && ids[i] !in book'
    ensures a.ChooseSkip? ==> ids[i] !in book'
  {
    var next := Review(rows, i, a).value;
    var end := ReviewRun(next, later).0;
    ReviewMeans(rows, i, a);
    DecidedStays(next, later, i);
    AppliedWrote(rules, dept, book, book', end, ids, i);
    if a.ChooseUpdate? { NothingCreatedFor(rules, dept, book, book', end, ids, i); }
  }

  /** An entry that no row of the batch updates is as it was. */
  lemma UntargetedIsUntouched(
      rules: Rules, dept: nat, book: Book, book': Book, rows: seq<Row>, ids: seq<nat>, x: nat)
    requires |rows| == |ids| && Applied(rules, dept, book, book', rows, ids, |rows|) && Fresh(book, rows, ids)
    requires x in book && forall j :: 0 <= j < |rows| && rows[j].resolution.Update? ==> rows[j].resolution.target != x
    ensures x in book' && book'[x] == book[x]
  {
  }

  datatype Fate = Creates | Updates | Leaves

  predicate Meets(r: Resolution, fate: Fate) {
    match fate
    case Creates => r.Create?
    case Updates => r.Update?
    case Leaves => r.Skip? || r.Pending?
  }

  /** The rows among the first `n` that meet the fate. */
  function Resolved(rows: seq<Row>, n: nat, fate: Fate): set<nat>
    requires n <= |rows|
  {
    set j: nat | j < n && Meets(rows[j].resolution, fate)
  }

  lemma ResolvedNext(rows: seq<Row>, n: nat, fate: Fate)
    requires n < |rows|
    ensures Resolved(rows, n + 1, fate) ==
            Resolved(rows, n, fate) + if Meets(rows[n].resolution, fate) then {n} else {}
    ensures n !in Resolved(rows, n, fate)
  {
    forall j: nat
      ensures j in Resolved(rows, n + 1, fate) <==>
              j in Resolved(rows, n, fate) || (j == n && Meets(rows[n].resolution, fate))
    {
    }
  }

  lemma {:induction false} CountsPrefix(rows: seq<Row>, n: nat)
    requires n <= |rows|
    ensures var t := CountBy(rows[..n]);
            && t.add == |Resolved(rows, n, Creates)| && t.update == |Resolved(rows, n, Updates)|
            && t.same == |Resolved(rows, n, Leaves)|
  {
    if n == 0 {
      assert forall fate :: Resolved(rows, 0, fate) == {};
    } else {
      CountsPrefix(rows, n - 1);
      assert rows[..n][..n - 1] == rows[..n - 1];
      ResolvedNext(rows, n - 1, Creates);
      ResolvedNext(rows, n - 1, Updates);
      ResolvedNext(rows, n - 1, Leaves);
    }
  }

  /** The counts are the numbers of rows resolved by creation, by an update, and by neither. */
  lemma CountsResolutions(rows: seq<Row>)
    ensures var t := CountBy(rows);
            && t.add == |Resolved(rows, |rows|, Creates)| && t.update == |Resolved(rows, |rows|, Updates)|
            && t.same == |Resolved(rows, |rows|, Leaves)|
  {
    assert rows[..|rows|] == rows;
    CountsPrefix(rows, |rows|);
  }

  /**
   A batch can be applied exactly when no row is undecided, each row to be written has valid values and a station there
   is, and each update's target is an entry of the department that still reads as it was reviewed.
   */
  lemma AppliesExactlyIf(rules: Rules, dept: nat, stations: set<nat>, book: Book, rows: seq<Row>)
    ensures Ready(rules, stations, rows) && TargetsIn(rules, dept, book, rows) <==>
            forall i {:trigger RowFits(rules, dept, stations, book, rows[i])} :: 0 <= i < |rows| ==>
                RowFits(rules, dept, stations, book, rows[i])
  {
    if Ready(rules, stations, rows) && TargetsIn(rules, dept, book, rows) {
      forall i | 0 <= i < |rows| ensures RowFits(rules, dept, stations, book, rows[i]) {
        assert RowReady(rules, stations, rows[i]) && TargetOk(rules, dept, book, rows[i]);
      }
    }
    if forall i {:trigger RowFits(rules, dept, stations, book, rows[i])} :: 0 <= i < |rows| ==>
        RowFits(rules, dept, stations, book, rows[i]) {
      forall i | 0 <= i < |rows| ensures RowReady(rules, stations, rows[i]) && TargetOk(rules, dept, book, rows[i]) {
        assert RowFits(rules, dept, stations, book, rows[i]);
      }
    }
  }

  predicate RowFits(rules: Rules, dept: nat, stations: set<nat>, book: Book, row: Row) {
    match row.resolution
    case Pending => false
    case Skip => true
    case Create => ValuesFit(rules, stations, row.values)
    case Update(target, fingerprint) =>
      && ValuesFit(rules, stations, row.values)
      && target in book && book[target].dept == dept && rules.fingerprint(book[target]) == fingerprint
  }

  predicate ValuesFit(rules: Rules, stations: set<nat>, v: Values) {
    rules.clean(v).Some? && (v.station == None || (v.station.Some? && v.station.value in stations))
  }
}
