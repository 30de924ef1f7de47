/**
 Documents that have the key of a row only for a while: when a preview made in between still shows what apply will find.
 */
module DocumentVisitors {
  import opened Common
  import opened DocumentImport
  import opened DocumentReview

  /** `u` lies between the taking of a baseline on `t` and now, when the baseline still holds. */
  ghost predicate Between(domain: Domain, t: Table, p: Pick, u: Table, now: Table, q: Pick) {
    && Stamped(t) && Since(t, u) && Since(u, now) && Picks(p) && Picks(q)
    && Baseline(domain, p, t.docs) == Baseline(domain, q, now.docs)
  }

  function ProposalNow(domain: Domain, b: Pick, now: Docs, row: Row): Proposal {
    Propose(domain, Current(domain, b, now, row), row)
  }

  /**
   Whichever document has the key of the row in `u`, it gives the row the proposal it gets now, and for an update it
   is the document found now.
   */
  ghost predicate GivesSame(domain: Domain, u: Docs, now: Docs, b: Pick, row: Row) {
    forall z :: z in Holders(domain, u, RowKey(domain, row)) ==> SameFrom(domain, u, now, b, row, z)
  }

  ghost predicate SameFrom(domain: Domain, u: Docs, now: Docs, b: Pick, row: Row, z: nat)
    requires z in u
  {
    var p := ProposalNow(domain, b, now, row);
    Propose(domain, Some(u[z]), row) == p && (p.Update? ==> Find(domain, b, now, RowKey(domain, row)) == Some(z))
  }

  ghost predicate AllGiveSame(domain: Domain, u: Docs, now: Docs, b: Pick, rows: seq<Row>) {
    forall j {:trigger rows[j]} :: 0 <= j < |rows| ==> GivesSame(domain, u, now, b, rows[j])
  }

  // ---- sums of rows ---------------------------------------------------------------------------------

  /** The row counts alike and, if it updates, asks for the same decision. */
  predicate SameEffect(p: Proposal, hit: Option<nat>, p': Proposal, hit': Option<nat>) {
    p' == p && (p.Update? ==> hit' == hit)
  }

  lemma {:induction false} SummedAlike(
    ps: seq<Proposal>, hits: seq<Option<nat>>, ps': seq<Proposal>, hits': seq<Option<nat>>, n: nat)
    requires n <= |ps| == |hits| == |ps'| == |hits'|
    requires forall j :: 0 <= j < n ==> SameEffect(ps[j], hits[j], ps'[j], hits'[j])
    ensures Summed(ps, hits, n) == Summed(ps', hits', n)
  {
    if n > 0 { SummedAlike(ps, hits, ps', hits', n - 1); }
  }

  /** Where only one row differs in effect, the sums differ. */
  lemma {:induction false} OneDiffers(
    ps: seq<Proposal>, hits: seq<Option<nat>>, ps': seq<Proposal>, hits': seq<Option<nat>>, j: nat, n: nat)
    requires j < n <= |ps| == |hits| == |ps'| == |hits'| && UpdatesHit(ps, hits) && UpdatesHit(ps', hits')
    requires forall i :: 0 <= i < n && i != j ==> SameEffect(ps[i], hits[i], ps'[i], hits'[i])
    requires !SameEffect(ps[j], hits[j], ps'[j], hits'[j])
    ensures Summed(ps, hits, n) != Summed(ps', hits', n)
  {
    if j == n - 1 {
      SummedAlike(ps, hits, ps', hits', j);
      RowShows(ps[j], hits[j], ps'[j], hits'[j], Summed(ps, hits, j));
    } else {
      OneDiffers(ps, hits, ps', hits', j, n - 1);
      RowKeepsApart(ps[n - 1], hits[n - 1], hits'[n - 1], Summed(ps, hits, n - 1), Summed(ps', hits', n - 1));
    }
  }

  lemma RowShows(p: Proposal, hit: Option<nat>, p': Proposal, hit': Option<nat>, prior: (Counts, seq<nat>))
    requires !SameEffect(p, hit, p', hit') && (p.Update? ==> hit.Some?) && (p'.Update? ==> hit'.Some?)
    ensures SummedRow(p, hit, prior) != SummedRow(p', hit', prior)
  {
    if p' == p {
      assert (prior.1 + [hit.value])[|prior.1|] != (prior.1 + [hit'.value])[|prior.1|];
    }
  }

  lemma RowKeepsApart(p: Proposal, hit: Option<nat>, hit': Option<nat>, a: (Counts, seq<nat>), b: (Counts, seq<nat>))
    requires a != b && (p.Update? ==> hit' == hit)
    ensures SummedRow(p, hit, a) != SummedRow(p, hit', b)
  {
    if a.0 == b.0 && p.Update? && hit.Some? {
      var x := [hit.value];
      assert (a.1 + x)[..|a.1|] == a.1 && (b.1 + x)[..|b.1|] == b.1;
    }
  }

  /** What a document that is not there now can do to a row that has none now. */
  predicate Drifts(p: Proposal, p': Proposal) {
    p' == p || (p.Add? && (p'.Update? || p'.Same?)) || (p.Same? && p'.Retire?)
  }

  /** Drifting rows never make up for one another: additions only become fewer and deactivations only more. */
  lemma {:induction false} DriftShows(
    ps: seq<Proposal>, hits: seq<Option<nat>>, ps': seq<Proposal>, hits': seq<Option<nat>>, n: nat)
    requires n <= |ps| == |hits| == |ps'| == |hits'| && forall j :: 0 <= j < n ==> Drifts(ps[j], ps'[j])
    ensures var c, c' := Summed(ps, hits, n).0, Summed(ps', hits', n).0;
            && c'.add <= c.add && c'.deactivate >= c.deactivate
            && ((exists j :: 0 <= j < n && ps'[j] != ps[j]) ==> c'.add < c.add || c'.deactivate > c.deactivate)
  {
    if n > 0 { DriftShows(ps, hits, ps', hits', n - 1); }
  }

  // ---- queries --------------------------------------------------------------------------------------

  /** The documents that are now as they were in `u`. */
  function Kept(u: Docs, now: Docs): set<nat> {
    set y | y in u && y in now && u[y] == now[y]
  }

  /** The choice that takes `z` where it can, and otherwise a document that is as it was. */
  function StayBut(u: Docs, now: Docs, z: Option<nat>): (pick: Pick)
    ensures Picks(pick)
  {
    var kept := Kept(u, now);
    (s: set<nat>) =>
      if z.Some? && z.value in s then z.value
      else if s * kept != {} then Least(s * kept)
      else if s == {} then 0 else Least(s)
  }

  /** Where a document has the key now, that choice finds it. */
  lemma StayFinds(domain: Domain, t: Table, p: Pick, u: Table, now: Table, q: Pick, b: Pick, z: Option<nat>, key: Key)
    requires Between(domain, t, p, u, now, q) && Picks(b) && UniqueAt(domain, now.docs, key)
    requires Holders(domain, now.docs, key) != {} && (z.Some? ==> z.value !in Holders(domain, u.docs, key))
    ensures Find(domain, StayBut(u.docs, now.docs, z), u.docs, key) == Find(domain, b, now.docs, key)
    ensures var hit := Find(domain, b, now.docs, key); DocAt(u.docs, hit) == DocAt(now.docs, hit)
  {
    HoldersPersist(domain, t, p, u, now, q, key);
    FindIsHolder(domain, b, now.docs, key);
    var y := Find(domain, b, now.docs, key).value;
    OneKept(domain, u.docs, now.docs, key, y);
    var s := Holders(domain, u.docs, key);
    assert Least(s * Kept(u.docs, now.docs)) == y;
  }

  lemma OneKept(domain: Domain, u: Docs, now: Docs, key: Key, y: nat)
    requires UniqueAt(domain, now, key) && y in Holders(domain, now, key) && y in u && u[y] == now[y]
    ensures Holders(domain, u, key) * Kept(u, now) == {y}
  {
    forall x | x in Holders(domain, u, key) * Kept(u, now) ensures x == y { assert x in Holders(domain, now, key); }
  }

  // ---- when previews agree --------------------------------------------------------------------------

  lemma GivesSameIsAlike(
    domain: Domain, t: Table, p: Pick, u: Table, a: Pick, now: Table, q: Pick, b: Pick, row: Row)
    requires Between(domain, t, p, u, now, q) && Picks(a) && Picks(b)
    requires UniqueAt(domain, now.docs, RowKey(domain, row)) && GivesSame(domain, u.docs, now.docs, b, row)
    ensures var key := RowKey(domain, row);
            SameEffect(ProposalNow(domain, b, now.docs, row), Find(domain, b, now.docs, key),
                       Propose(domain, Current(domain, a, u.docs, row), row), Find(domain, a, u.docs, key))
  {
    var key := RowKey(domain, row);
    HoldersPersist(domain, t, p, u, now, q, key);
    FindIsHolder(domain, a, u.docs, key);
    FindIsHolder(domain, b, now.docs, key);
    var hit := Find(domain, a, u.docs, key);
    if hit.Some? { assert SameFrom(domain, u.docs, now.docs, b, row, hit.value); }
  }

  /** Then every preview of `u` is the preview of now. */
  lemma PreviewedAlike(
    domain: Domain, t: Table, p: Pick, u: Table, a: Pick, now: Table, q: Pick, b: Pick, rows: seq<Row>)
    requires Between(domain, t, p, u, now, q) && Picks(a) && Picks(b)
    requires UniqueRows(domain, now.docs, rows) && AllGiveSame(domain, u.docs, now.docs, b, rows)
    ensures Preview(domain, a, u.docs, rows) == Preview(domain, b, now.docs, rows)
  {
    var hits, hits' := Lookups(domain, b, now.docs, rows), Lookups(domain, a, u.docs, rows);
    var ps, ps' := Proposals(domain, now.docs, rows, hits), Proposals(domain, u.docs, rows, hits');
    forall j | 0 <= j < |rows| ensures SameEffect(ps[j], hits[j], ps'[j], hits'[j]) {
      assert UniqueAt(domain, now.docs, RowKey(domain, rows[j])) && GivesSame(domain, u.docs, now.docs, b, rows[j]);
      GivesSameIsAlike(domain, t, p, u, a, now, q, b, rows[j]);
    }
    SummedAlike(ps, hits, ps', hits', |rows|);
  }

  /** A row without a document now drifts, whichever document it finds in `u`; with one now, it may stay. */
  lemma StayDrifts(
    domain: Domain, t: Table, p: Pick, u: Table, now: Table, q: Pick, b: Pick, z: Option<nat>, row: Row)
    requires Between(domain, t, p, u, now, q) && Picks(b) && UniqueAt(domain, now.docs, RowKey(domain, row))
    requires Holders(domain, now.docs, RowKey(domain, row)) != {} ==>
               (z.Some? ==> z.value !in Holders(domain, u.docs, RowKey(domain, row)))
    ensures var a, key := StayBut(u.docs, now.docs, z), RowKey(domain, row);
            var p, p' := ProposalNow(domain, b, now.docs, row), Propose(domain, Current(domain, a, u.docs, row), row);
            && Drifts(p, p')
            && (p' == p ==> SameEffect(p, Find(domain, b, now.docs, key), p', Find(domain, a, u.docs, key)))
  {
    var key := RowKey(domain, row);
    FindIsHolder(domain, b, now.docs, key);
    if Holders(domain, now.docs, key) != {} { StayFinds(domain, t, p, u, now, q, b, z, key); }
  }

  /** A document that does not give the row the same shows in some preview. */
  lemma DifferenceShows(
    domain: Domain, t: Table, p: Pick, u: Table, now: Table, q: Pick, b: Pick, rows: seq<Row>, j: nat, z: nat)
    requires Between(domain, t, p, u, now, q) && Picks(b)
    requires UniqueRows(domain, now.docs, rows) && PackageApart(domain, now.docs, rows)
    requires j < |rows| && z in Holders(domain, u.docs, RowKey(domain, rows[j]))
    requires !SameFrom(domain, u.docs, now.docs, b, rows[j], z)
    ensures exists a: Pick :: Picks(a) && Preview(domain, a, u.docs, rows) != Preview(domain, b, now.docs, rows)
  {
    if Holders(domain, now.docs, RowKey(domain, rows[j])) == {} {
      DriftingRowShows(domain, t, p, u, now, q, b, rows, j, Some(z));
    } else {
      var stay := StayBut(u.docs, now.docs, None);
      if i :| 0 <= i < |rows| && Propose(domain, Current(domain, stay, u.docs, rows[i]), rows[i]) !=
                                 ProposalNow(domain, b, now.docs, rows[i]) {
        DriftingRowShows(domain, t, p, u, now, q, b, rows, i, None);
      } else {
        OneRowShows(domain, t, p, u, now, q, b, rows, j, z);
      }
    }
  }

  /** Row `j`, drifting under the choice that would take `z`, shows in the counts. */
  lemma DriftingRowShows(
    domain: Domain, t: Table, p: Pick, u: Table, now: Table, q: Pick, b: Pick, rows: seq<Row>, j: nat, z: Option<nat>)
    requires Between(domain, t, p, u, now, q) && Picks(b) && UniqueRows(domain, now.docs, rows) && j < |rows|
    requires var a := StayBut(u.docs, now.docs, z);
             Propose(domain, Current(domain, a, u.docs, rows[j]), rows[j]) != ProposalNow(domain, b, now.docs, rows[j])
    requires z.Some? ==> z.value in Holders(domain, u.docs, RowKey(domain, rows[j]))
    requires z.Some? ==> Holders(domain, now.docs, RowKey(domain, rows[j])) == {}
    ensures var a := StayBut(u.docs, now.docs, z);
            Picks(a) && Preview(domain, a, u.docs, rows) != Preview(domain, b, now.docs, rows)
  {
    var a := StayBut(u.docs, now.docs, z);
    var hits, hits' := Lookups(domain, b, now.docs, rows), Lookups(domain, a, u.docs, rows);
    var ps, ps' := Proposals(domain, now.docs, rows, hits), Proposals(domain, u.docs, rows, hits');
    forall i | 0 <= i < |rows| ensures Drifts(ps[i], ps'[i]) {
      assert UniqueAt(domain, now.docs, RowKey(domain, rows[i]));
      if z.Some? && z.value in Holders(domain, u.docs, RowKey(domain, rows[i])) {
        assert RowKey(domain, rows[i]) == RowKey(domain, rows[j]);
      }
      StayDrifts(domain, t, p, u, now, q, b, z, rows[i]);
    }
    assert ps'[j] != ps[j];
    DriftShows(ps, hits, ps', hits', |rows|);
  }

  /** If all rows stay as they are where they can, a single row that does not shows. */
  lemma OneRowShows(
    domain: Domain, t: Table, p: Pick, u: Table, now: Table, q: Pick, b: Pick, rows: seq<Row>, j: nat, z: nat)
    requires Between(domain, t, p, u, now, q) && Picks(b)
    requires UniqueRows(domain, now.docs, rows) && PackageApart(domain, now.docs, rows)
    requires j < |rows| && z in Holders(domain, u.docs, RowKey(domain, rows[j]))
    requires !SameFrom(domain, u.docs, now.docs, b, rows[j], z)
    requires Holders(domain, now.docs, RowKey(domain, rows[j])) != {}
    requires forall i {:trigger rows[i]} :: 0 <= i < |rows| ==>
               Propose(domain, Current(domain, StayBut(u.docs, now.docs, None), u.docs, rows[i]), rows[i]) ==
               ProposalNow(domain, b, now.docs, rows[i])
    ensures var a := StayBut(u.docs, now.docs, Some(z));
            Picks(a) && Preview(domain, a, u.docs, rows) != Preview(domain, b, now.docs, rows)
  {
    var a := StayBut(u.docs, now.docs, Some(z));
    var hits, hits' := Lookups(domain, b, now.docs, rows), Lookups(domain, a, u.docs, rows);
    var ps, ps' := Proposals(domain, now.docs, rows, hits), Proposals(domain, u.docs, rows, hits');
    forall i | 0 <= i < |rows| && i != j ensures SameEffect(ps[i], hits[i], ps'[i], hits'[i]) {
      assert RowKey(domain, rows[i]) != RowKey(domain, rows[j]);
      assert z !in Holders(domain, u.docs, RowKey(domain, rows[i]));
      StayWithout(domain, u.docs, now.docs, z, RowKey(domain, rows[i]));
      assert UniqueAt(domain, now.docs, RowKey(domain, rows[i]));
      StayDrifts(domain, t, p, u, now, q, b, None, rows[i]);
    }
    assert hits'[j] == Some(z);
    ProposalsHit(domain, now.docs, rows, hits);
    ProposalsHit(domain, u.docs, rows, hits');
    OneDiffers(ps, hits, ps', hits', j, |rows|);
  }

  lemma StayWithout(domain: Domain, u: Docs, now: Docs, z: nat, key: Key)
    requires z !in Holders(domain, u, key)
    ensures Find(domain, StayBut(u, now, Some(z)), u, key) == Find(domain, StayBut(u, now, None), u, key)
  {
  }

  /**
   A preview made while the baseline holds, and followed by any edits that leave it holding, is bound to be the
   preview of now exactly when every document that had a row's key then gives the row what it gets now.
   */
  lemma PreviewAgreesIff(
    domain: Domain, t: Table, p: Pick, u: Table, now: Table, q: Pick, b: Pick, rows: seq<Row>)
    requires Between(domain, t, p, u, now, q) && Picks(b)
    requires UniqueRows(domain, now.docs, rows) && PackageApart(domain, now.docs, rows)
    ensures (forall a: Pick :: Picks(a) ==> Preview(domain, a, u.docs, rows) == Preview(domain, b, now.docs, rows))
            <==> AllGiveSame(domain, u.docs, now.docs, b, rows)
  {
    if AllGiveSame(domain, u.docs, now.docs, b, rows) {
      forall a: Pick | Picks(a) ensures Preview(domain, a, u.docs, rows) == Preview(domain, b, now.docs, rows) {
        PreviewedAlike(domain, t, p, u, a, now, q, b, rows);
      }
    } else {
      var j :| 0 <= j < |rows| && !GivesSame(domain, u.docs, now.docs, b, rows[j]);
      var z :| z in Holders(domain, u.docs, RowKey(domain, rows[j]))
          && !SameFrom(domain, u.docs, now.docs, b, rows[j], z);
      DifferenceShows(domain, t, p, u, now, q, b, rows, j, z);
    }
  }

  /** Without visitors every document gives what it gives now. */
  lemma NoVisitorsGiveSame(
    domain: Domain, t: Table, p: Pick, u: Table, now: Table, q: Pick, b: Pick, rows: seq<Row>)
    requires Between(domain, t, p, u, now, q) && Picks(b)
    requires UniqueRows(domain, now.docs, rows) && NoVisitors(domain, u.docs, now.docs, rows)
    ensures AllGiveSame(domain, u.docs, now.docs, b, rows)
  {
    forall j | 0 <= j < |rows| ensures GivesSame(domain, u.docs, now.docs, b, rows[j]) {
      var key := RowKey(domain, rows[j]);
      assert UniqueAt(domain, now.docs, key) && NoVisitorAt(domain, u.docs, now.docs, key);
      HoldersPersist(domain, t, p, u, now, q, key);
      forall z | z in Holders(domain, u.docs, key) ensures SameFrom(domain, u.docs, now.docs, b, rows[j], z) {
        FindUnique(domain, b, now.docs, key, z);
      }
    }
  }

  /** Saved and removed again. */
  function Visit(t: Table, x: nat, doc: Doc): Table {
    Edited(Edited(t, Save(x, doc)), Remove(x))
  }

  lemma VisitLeavesNoTrace(domain: Domain, x: nat, doc: Doc, a: Pick, b: Pick)
    requires Picks(a) && Picks(b)
    ensures var t := Table(map[], 0);
            Visit(t, x, doc).docs == map[] && Between(domain, t, a, Edited(t, Save(x, doc)), Visit(t, x, doc), b)
  {
    var t := Table(map[], 0);
    var u := Edited(t, Save(x, doc));
    var now := Visit(t, x, doc);
    assert now.docs == map[];
    EditSince(t, Save(x, doc));
    EditSince(u, Remove(x));
    assert Keys(domain, t.docs) == {} && Keys(domain, now.docs) == {};
    assert Baseline(domain, a, t.docs) == Baseline(domain, b, now.docs);
  }

  lemma OneRowCounts(domain: Domain, pick: Pick, docs: Docs, row: Row)
    ensures Preview(domain, pick, docs, [row]).0 ==
            Counted(Counts(0, 0, 0, 0), Propose(domain, Current(domain, pick, docs, row), row))
  {
    var hits := Lookups(domain, pick, docs, [row]);
    assert Summed(Proposals(domain, docs, [row], hits), hits, 0) == (Counts(0, 0, 0, 0), []);
  }

  /**
   A visitor, concretely: a document with the key of the row is saved after the baseline and removed again. The baseline
   holds, and yet the preview made in between has other counts than the one made now.
   */
  lemma VisitorMisleads(domain: Domain, x: nat, doc: Doc, row: Row, a: Pick, b: Pick)
    requires row.action.Upsert? && RowKey(domain, row) == DocKey(domain, doc) && Picks(a) && Picks(b)
    ensures var t := Table(map[], 0);
            var u, now := Edited(t, Save(x, doc)), Visit(t, x, doc);
            && Between(domain, t, a, u, now, b) && UniqueRows(domain, now.docs, [row])
            && PackageApart(domain, now.docs, [row])
            && Preview(domain, a, u.docs, [row]).0 != Preview(domain, b, now.docs, [row]).0
  {
    var t := Table(map[], 0);
    var u, now := Edited(t, Save(x, doc)), Visit(t, x, doc);
    VisitLeavesNoTrace(domain, x, doc, a, b);
    var key := RowKey(domain, row);
    assert x in Holders(domain, u.docs, key) && Holders(domain, now.docs, key) == {};
    FindIsHolder(domain, a, u.docs, key);
    OneRowCounts(domain, a, u.docs, row);
    OneRowCounts(domain, b, now.docs, row);
  }
}
