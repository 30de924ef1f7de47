/** Hydrant imports: a read-only preview and a create/update loop that refines a plain map override. */
module HydrantImport {
  import opened Common

  /** `_hydrant_business_values`: what an import compares and writes. */
  datatype Values = Values(
    longitude: real, latitude: real, street: string, houseNumber: string, location: Option<string>,
    hydrantType: string, diameter: Option<nat>, status: string)

  datatype Row = Row(identifier: string, values: Values)

  /** A stored hydrant; `extra` stands for the fields an import never touches. */
  datatype Hydrant = Hydrant(values: Values, extra: string, updatedAt: int)

  /** Hydrants by department and external identifier. */
  type Table = map<(nat, string), Hydrant>

  /** What the parsers guarantee of the rows of one import: identifiers are nonempty and pairwise distinct. */
  ghost predicate Parsed(rows: seq<Row>) {
    && (forall i :: 0 <= i < |rows| ==> rows[i].identifier != "")
    && (forall i, j :: 0 <= i < j < |rows| ==> rows[i].identifier != rows[j].identifier)
  }

  datatype Class = New | Changed | Same

  function Classify(t: Table, dept: nat, row: Row): Class {
    if (dept, row.identifier) !in t then New
    else if t[(dept, row.identifier)].values != row.values then Changed
    else Same
  }

  datatype Tally = Tally(add: nat, update: nat, same: nat)

  function Count(tally: Tally, c: Class): Tally {
    match c
    case New => tally.(add := tally.add + 1)
    case Changed => tally.(update := tally.update + 1)
    case Same => tally.(same := tally.same + 1)
  }

  /** `_preview_hydrants`: the counts shown for confirmation. */
  function Preview(t: Table, dept: nat, rows: seq<Row>): Tally {
    if rows == [] then Tally(0, 0, 0)
    else Count(Preview(t, dept, rows[..|rows| - 1]), Classify(t, dept, rows[|rows| - 1]))
  }

  lemma {:induction false} CountsPartition(t: Table, dept: nat, rows: seq<Row>)
    ensures var p := Preview(t, dept, rows); p.add + p.update + p.same == |rows|
  {
    if rows != [] { CountsPartition(t, dept, rows[..|rows| - 1]); }
  }

  /** The hydrant of the row is not stored, is stored with other values, or reads as the row does. */
  predicate Fits(t: Table, dept: nat, row: Row, c: Class) {
    var key := (dept, row.identifier);
    match c
    case New => key !in t
    case Changed => key in t && t[key].values != row.values
    case Same => key in t && t[key].values == row.values
  }

  /** The rows of that class. */
  function Fitting(t: Table, dept: nat, rows: seq<Row>, c: Class): set<nat> {
    set j: nat | j < |rows| && Fits(t, dept, rows[j], c)
  }

  lemma FitsIsClass(t: Table, dept: nat, row: Row, c: Class)
    ensures Fits(t, dept, row, c) <==> Classify(t, dept, row) == c
  {
  }

  function Classes(t: Table, dept: nat, rows: seq<Row>): (cs: seq<Class>)
    ensures |cs| == |rows|
  {
    seq(|rows|, j requires 0 <= j < |rows| => Classify(t, dept, rows[j]))
  }

  /** The places of a class among the first `n`. */
  function Places(cs: seq<Class>, n: nat, c: Class): set<nat>
    requires n <= |cs|
  {
    set j: nat | j < n && cs[j] == c
  }

  lemma PlacesNext(cs: seq<Class>, n: nat, c: Class)
    requires n < |cs|
    ensures |Places(cs, n + 1, c)| == |Places(cs, n, c)| + if cs[n] == c then 1 else 0
  {
    if cs[n] == c {
      assert Places(cs, n + 1, c) == Places(cs, n, c) + {n};
    } else {
      assert Places(cs, n + 1, c) == Places(cs, n, c);
    }
  }

  lemma {:induction false} PreviewOfPrefix(t: Table, dept: nat, rows: seq<Row>, n: nat)
    requires n <= |rows|
    ensures var p, cs := Preview(t, dept, rows[..n]), Classes(t, dept, rows);
            p.add == |Places(cs, n, New)| && p.update == |Places(cs, n, Changed)| && p.same == |Places(cs, n, Same)|
  {
    var cs := Classes(t, dept, rows);
    if n == 0 {
      assert forall c :: Places(cs, 0, c) == {};
    } else {
      PreviewOfPrefix(t, dept, rows, n - 1);
      assert rows[..n][..n - 1] == rows[..n - 1];
      PlacesNext(cs, n - 1, New);
      PlacesNext(cs, n - 1, Changed);
      PlacesNext(cs, n - 1, Same);
    }
  }

  /** The preview counts the rows not stored yet, those stored with other values, and those that change nothing. */
  lemma PreviewCounts(t: Table, dept: nat, rows: seq<Row>)
    ensures var p := Preview(t, dept, rows);
            && p.add == |Fitting(t, dept, rows, New)| && p.update == |Fitting(t, dept, rows, Changed)|
            && p.same == |Fitting(t, dept, rows, Same)|
  {
    var cs := Classes(t, dept, rows);
    assert rows[..|rows|] == rows;
    PreviewOfPrefix(t, dept, rows, |rows|);
    forall c ensures Places(cs, |rows|, c) == Fitting(t, dept, rows, c) {
      forall j: nat | j < |rows| ensures cs[j] == c <==> Fits(t, dept, rows[j], c) {
        FitsIsClass(t, dept, rows[j], c);
      }
    }
  }

  ghost predicate AllSame(t: Table, dept: nat, rows: seq<Row>) {
    forall i :: 0 <= i < |rows| ==> Classify(t, dept, rows[i]).Same?
  }

  lemma {:induction false} AllSameCounted(t: Table, dept: nat, rows: seq<Row>)
    ensures Preview(t, dept, rows) == Tally(0, 0, |rows|) <==> AllSame(t, dept, rows)
  {
    if rows != [] {
      AllSameCounted(t, dept, rows[..|rows| - 1]);
      CountsPartition(t, dept, rows[..|rows| - 1]);
    }
  }

  // ---- the baseline ---------------------------------------------------------------------------------

  /** What a baseline fingerprint pins of one hydrant; the digest is injective on it. */
  datatype Mark = Mark(updatedAt: int, values: Values)

  /** `_hydrant_baseline`: only the hydrants the import names. */
  function Baseline(t: Table, dept: nat, rows: seq<Row>): map<string, Mark> {
    map i | i in (set r | r in rows && (dept, r.identifier) in t :: r.identifier) ::
      Mark(t[(dept, i)].updatedAt, t[(dept, i)].values)
  }

  /** Equal baselines classify every row alike, whatever else changed in the table meanwhile. */
  lemma BaselineDecides(t: Table, t': Table, dept: nat, rows: seq<Row>, row: Row)
    requires Baseline(t, dept, rows) == Baseline(t', dept, rows) && row in rows
    ensures Classify(t, dept, row) == Classify(t', dept, row)
  {
    var b, b' := Baseline(t, dept, rows), Baseline(t', dept, rows);
    assert row.identifier in b <==> (dept, row.identifier) in t;
    assert row.identifier in b' <==> (dept, row.identifier) in t';
    if row.identifier in b { assert b[row.identifier] == b'[row.identifier]; }
  }

  /** In both tables the row's hydrant is stored, saved at the same time with the same values, or in neither. */
  predicate SeenAlike(t: Table, t': Table, dept: nat, row: Row) {
    var key := (dept, row.identifier);
    && (key in t <==> key in t')
    && (key in t && key in t' ==> t[key].updatedAt == t'[key].updatedAt && t[key].values == t'[key].values)
  }

  /** A baseline notices exactly the hydrants that the rows name, and of those the time of change and the values. */
  lemma BaselineAgreesIff(t: Table, t': Table, dept: nat, rows: seq<Row>)
    ensures Baseline(t, dept, rows) == Baseline(t', dept, rows) <==>
            forall r {:trigger SeenAlike(t, t', dept, r)} :: r in rows ==> SeenAlike(t, t', dept, r)
  {
    var b, b' := Baseline(t, dept, rows), Baseline(t', dept, rows);
    forall r | r in rows
      ensures SeenAlike(t, t', dept, r) <==>
              (r.identifier in b <==> r.identifier in b')
              && (r.identifier in b && r.identifier in b' ==> b[r.identifier] == b'[r.identifier])
    {
      assert r.identifier in b <==> (dept, r.identifier) in t;
      assert r.identifier in b' <==> (dept, r.identifier) in t';
    }
    if forall r {:trigger SeenAlike(t, t', dept, r)} :: r in rows ==> SeenAlike(t, t', dept, r) {
      forall i ensures (i in b <==> i in b') && (i in b ==> b[i] == b'[i]) {
        if r :| r in rows && r.identifier == i { assert SeenAlike(t, t', dept, r); }
      }
      assert b == b';
    }
  }

  lemma {:induction false} PreviewHoldsUnderEqualBaseline(
      t: Table, t': Table, dept: nat, rows: seq<Row>, some: seq<Row>)
    requires Baseline(t, dept, rows) == Baseline(t', dept, rows) && forall r :: r in some ==> r in rows
    ensures Preview(t, dept, some) == Preview(t', dept, some)
    decreases |some|
  {
    if some != [] {
      BaselineDecides(t, t', dept, rows, some[|some| - 1]);
      PreviewHoldsUnderEqualBaseline(t, t', dept, rows, some[..|some| - 1]);
    }
  }

  // ---- applying ---------------------------------------------------------------------------------------

  function Written(t: Table, dept: nat, row: Row, now: int): Hydrant {
    match Classify(t, dept, row)
    case New => Hydrant(row.values, "", now)
    case Changed => t[(dept, row.identifier)].(values := row.values, updatedAt := now)
    case Same => t[(dept, row.identifier)]
  }

  /**
   The row is what the table reads at its identifier. A new hydrant has nothing but the row; a stored one keeps the
   fields an import never touches, and its time of change unless the row changes it.
   */
  predicate Overridden(t: Table, t': Table, dept: nat, row: Row, now: int) {
    var key := (dept, row.identifier);
    && key in t' && t'[key].values == row.values
    && (key !in t ==> t'[key].extra == "" && t'[key].updatedAt == now)
    && (key in t ==>
          && t'[key].extra == t[key].extra
          && t'[key].updatedAt == if t[key].values == row.values then t[key].updatedAt else now)
  }

  /** The plain override: imported identifiers take their row, everything else stays as it is. */
  ghost predicate IsOverride(t: Table, t': Table, dept: nat, rows: seq<Row>, now: int) {
    && (forall k :: k in t' ==> k in t || (k.0 == dept && exists r :: r in rows && r.identifier == k.1))
    && (forall k :: k in t && (k.0 != dept || forall r :: r in rows ==> r.identifier != k.1) ==>
        k in t' && t'[k] == t[k])
    && (forall r {:trigger Overridden(t, t', dept, r, now)} :: r in rows ==> Overridden(t, t', dept, r, now))
  }

  lemma OverriddenIsWritten(t: Table, t': Table, dept: nat, row: Row, now: int)
    ensures Overridden(t, t', dept, row, now) <==>
            (dept, row.identifier) in t' && t'[(dept, row.identifier)] == Written(t, dept, row, now)
  {
  }

  /** After an override every imported row reads as written, so a second import of the rows finds nothing to do. */
  lemma OverrideSettlesRows(t: Table, t': Table, dept: nat, rows: seq<Row>, now: int)
    requires IsOverride(t, t', dept, rows, now)
    ensures forall r :: r in rows ==> (dept, r.identifier) in t' && t'[(dept, r.identifier)].values == r.values
    ensures AllSame(t', dept, rows) && Preview(t', dept, rows) == Tally(0, 0, |rows|)
  {
    forall r | r in rows ensures (dept, r.identifier) in t' && t'[(dept, r.identifier)].values == r.values {
      assert Overridden(t, t', dept, r, now);
    }
    AllSameCounted(t', dept, rows);
  }

  /** Where nothing is new or changed, the only override is the table itself. */
  lemma SettledOverrideIsIdentity(t: Table, t': Table, dept: nat, rows: seq<Row>, now: int)
    requires IsOverride(t, t', dept, rows, now) && AllSame(t, dept, rows)
    ensures t' == t
  {
    forall k | k in t ensures k in t' && t'[k] == t[k] {
      if k.0 == dept && exists r :: r in rows && r.identifier == k.1 {
        var r :| r in rows && r.identifier == k.1;
        assert k == (dept, r.identifier) && Overridden(t, t', dept, r, now);
      }
    }
    forall k | k in t' ensures k in t {
      if k.0 == dept && exists r :: r in rows && r.identifier == k.1 {
        var r :| r in rows && r.identifier == k.1;
        assert k == (dept, r.identifier) && Overridden(t, t', dept, r, now);
      }
    }
  }

  /** The rows to create or update, keyed by where they go. */
  ghost predicate IsDiff(t: Table, written: Table, dept: nat, rows: seq<Row>, now: int) {
    && (forall k :: k in written ==> k.0 == dept && exists j :: 0 <= j < |rows| && rows[j].identifier == k.1)
    && (forall j :: 0 <= j < |rows| ==>
          var key := (dept, rows[j].identifier);
          if Classify(t, dept, rows[j]).Same? then key !in written
          else key in written && written[key] == Written(t, dept, rows[j], now))
  }

  /** The rows to write, gathered in order. */
  function Gathered(t: Table, dept: nat, rows: seq<Row>, now: int): Table {
    if rows == [] then map[]
    else
      var n := |rows| - 1;
      var prior := Gathered(t, dept, rows[..n], now);
      if Classify(t, dept, rows[n]).Same? then prior
      else prior[(dept, rows[n].identifier) := Written(t, dept, rows[n], now)]
  }

  lemma {:induction false} GatheredIsDiff(t: Table, dept: nat, rows: seq<Row>, now: int)
    requires Parsed(rows)
    ensures IsDiff(t, Gathered(t, dept, rows, now), dept, rows, now)
  {
    if rows != [] {
      var n := |rows| - 1;
      GatheredIsDiff(t, dept, rows[..n], now);
      assert rows[..n] + [rows[n]] == rows;
      DiffExtends(t, Gathered(t, dept, rows[..n], now), Gathered(t, dept, rows, now), dept, rows[..n], rows[n], now);
    }
  }

  /** The loop of `_apply_hydrants`, up to the bulk writes. */
  method Diff(table: Table, dept: nat, rows: seq<Row>, now: int) returns (written: Table, tally: Tally)
    requires Parsed(rows)
    ensures tally == Preview(table, dept, rows) && IsDiff(table, written, dept, rows, now)
  {
    written, tally := map[], Tally(0, 0, 0);
    var i := 0;
    while i < |rows|
      invariant 0 <= i <= |rows|
      invariant tally == Preview(table, dept, rows[..i]) && written == Gathered(table, dept, rows[..i], now)
    {
      var row := rows[i];
      var key := (dept, row.identifier);
      assert rows[..i + 1][..i] == rows[..i];
      if key !in table {
        written := written[key := Hydrant(row.values, "", now)];
        tally := tally.(add := tally.add + 1);
      } else if table[key].values != row.values {
        written := written[key := table[key].(values := row.values, updatedAt := now)];
        tally := tally.(update := tally.update + 1);
      } else {
        tally := tally.(same := tally.same + 1);
      }
      i := i + 1;
    }
    assert rows[..i] == rows;
    GatheredIsDiff(table, dept, rows, now);
  }

  lemma DiffExtends(t: Table, written: Table, written': Table, dept: nat, rows: seq<Row>, row: Row, now: int)
    requires IsDiff(t, written, dept, rows, now) && forall i :: 0 <= i < |rows| ==> rows[i].identifier != row.identifier
    requires written' == if Classify(t, dept, row).Same? then written
             else written[(dept, row.identifier) := Written(t, dept, row, now)]
    ensures IsDiff(t, written', dept, rows + [row], now)
  {
    var all := rows + [row];
    forall k | k in written' ensures k.0 == dept && exists j :: 0 <= j < |all| && all[j].identifier == k.1 {
      if k in written {
        var j :| 0 <= j < |rows| && rows[j].identifier == k.1;
        assert all[j].identifier == k.1;
      } else {
        assert all[|rows|].identifier == k.1;
      }
    }
  }

  class HydrantStore {
    var table: Table

    constructor (table: Table)
      ensures this.table == table
    {
      this.table := table;
    }

    /**
     `_apply_hydrants` on a still-current preview: the table becomes the override by the rows, the counts are the
     previewed ones, and the scope is dirtied exactly when the table changed. A changed baseline changes nothing.
     */
    method ApplyPreview(dept: nat, rows: seq<Row>, baseline: map<string, Mark>, now: int)
      returns (applied: bool, tally: Tally, dirty: bool)
      requires Parsed(rows)
      modifies this
      ensures applied == (Baseline(old(table), dept, rows) == baseline)
      ensures !applied ==> table == old(table) && !dirty
      ensures applied ==> IsOverride(old(table), table, dept, rows, now)
      ensures applied ==> tally == Preview(old(table), dept, rows)
      ensures applied ==> dirty == (table != old(table)) == !AllSame(old(table), dept, rows)
    {
      applied, tally, dirty := Baseline(table, dept, rows) == baseline, Tally(0, 0, 0), false;
      if !applied { return; }
      var written: Table;
      written, tally := Diff(table, dept, rows, now);
      dirty := tally.add > 0 || tally.update > 0;
      AllSameCounted(table, dept, rows);
      CountsPartition(table, dept, rows);
      WrittenIsOverride(table, written, dept, rows, now);
      if dirty { OverrideChanges(table, table + written, dept, rows, now); }
      else { SettledOverrideIsIdentity(table, table + written, dept, rows, now); }
      table := table + written;
    }
  }

  lemma OverrideChanges(t: Table, t': Table, dept: nat, rows: seq<Row>, now: int)
    requires IsOverride(t, t', dept, rows, now) && !AllSame(t, dept, rows)
    ensures t' != t
  {
    var i :| 0 <= i < |rows| && !Classify(t, dept, rows[i]).Same?;
    assert rows[i] in rows && Overridden(t, t', dept, rows[i], now);
  }

  lemma WrittenIsOverride(t: Table, written: Table, dept: nat, rows: seq<Row>, now: int)
    requires IsDiff(t, written, dept, rows, now)
    ensures IsOverride(t, t + written, dept, rows, now)
  {
    forall k | k in written ensures exists r :: r in rows && r.identifier == k.1 {
      var j :| 0 <= j < |rows| && rows[j].identifier == k.1;
      assert rows[j] in rows;
    }
    forall r | r in rows ensures Overridden(t, t + written, dept, r, now) {
      var j :| 0 <= j < |rows| && rows[j] == r;
      OverriddenIsWritten(t, t + written, dept, r, now);
    }
  }

  /** Preview, then anything that leaves the named hydrants alone, then apply: the counts are the previewed ones. */
  lemma AppliedCountsArePreviewed(previewed: Table, current: Table, dept: nat, rows: seq<Row>)
    requires Baseline(current, dept, rows) == Baseline(previewed, dept, rows)
    ensures Preview(current, dept, rows) == Preview(previewed, dept, rows)
  {
    PreviewHoldsUnderEqualBaseline(current, previewed, dept, rows, rows);
  }

  /** Applying again is a no-op: all rows are unchanged and the table stays as it is. */
  lemma ApplyingTwiceIsIdle(t: Table, t': Table, t'': Table, dept: nat, rows: seq<Row>, now: int, later: int)
    requires IsOverride(t, t', dept, rows, now) && IsOverride(t', t'', dept, rows, later)
    ensures t'' == t' && Preview(t', dept, rows) == Tally(0, 0, |rows|)
  {
    OverrideSettlesRows(t, t', dept, rows, now);
    SettledOverrideIsIdentity(t', t'', dept, rows, later);
  }
}
