/**
 Fire-plan and KLGV-plan imports: identity keys, the read-only preview, the reviewer's decisions, and what one row does
 when it is applied.
 */
module DocumentImport {
  import opened Common

  datatype Domain = FirePlans | KlgvPlans

  type Point = (real, real)

  /** Where an accepted PDF lies: below `plans/` for KLGV, at the top for fire plans. */
  datatype Path = Plan(id: nat) | Plain(name: nat)

  /** What is recorded of a document's PDF besides its digests. */
  datatype File = File(name: string, size: nat, pages: nat)

  datatype Doc = Doc(
    external: string, name: string, address: string, postal: string, city: string, fsd: string, bmz: string,
    rwa: string, location: Option<Point>, file: File, sha: string, sourceSha: string, path: Path, active: bool,
    updatedAt: int)

  datatype Action = Upsert | Deactivate

  /**
   A normalised row. `staging` names its sanitised PDF, whose digest is `sanitizedSha`; a deactivation has none, and
   neither has a row whose content was found to be stored already.
   */
  datatype Row = Row(
    action: Action, external: string, title: string, address: string, postal: string, city: string, fsd: string,
    bmz: string, rwa: string, longitude: Option<real>, latitude: Option<real>, file: File, sourceSha: string,
    sanitizedSha: string, staging: Option<string>)

  type Docs = map<nat, Doc>

  // ---- identity -------------------------------------------------------------------------------------

  /** The import identity; the three kinds carry different prefixes in the source and never coincide. */
  datatype Key = External(id: string) | AtAddress(address: string) | NameAtAddress(joined: string)

  function IdentityKey(domain: Domain, external: string, name: string, address: string): Key {
    if Strip(external) != "" then External(Strip(external))
    else if domain.KlgvPlans? then NameAtAddress(Strip(name) + ['\0'] + Strip(address))
    else AtAddress(Strip(address))
  }

  function DocKey(domain: Domain, doc: Doc): Key {
    IdentityKey(domain, doc.external, doc.name, doc.address)
  }

  function RowKey(domain: Domain, row: Row): Key {
    IdentityKey(domain, row.external, row.title, row.address)
  }

  function Holders(domain: Domain, docs: Docs, key: Key): set<nat> {
    set id | id in docs && DocKey(domain, docs[id]) == key
  }

  /** Which of several rows a query lists last, and a dictionary therefore keeps. */
  type Pick = set<nat> -> nat

  ghost predicate Picks(pick: Pick) {
    forall s: set<nat> {:trigger pick(s)} :: s != {} ==> pick(s) in s
  }

  /** `existing.get(key)`, for the dictionary that one query filled. */
  function Find(domain: Domain, pick: Pick, docs: Docs, key: Key): Option<nat> {
    var found := Holders(domain, docs, key);
    if found == {} then None else Some(pick(found))
  }

  function DocAt(docs: Docs, hit: Option<nat>): Option<Doc> {
    if hit.Some? && hit.value in docs then Some(docs[hit.value]) else None
  }

  /** At most one document has the key. */
  ghost predicate UniqueAt(domain: Domain, docs: Docs, key: Key) {
    forall x, y :: x in Holders(domain, docs, key) && y in Holders(domain, docs, key) ==> x == y
  }

  ghost predicate UniqueKeys(domain: Domain, docs: Docs) {
    forall key {:trigger UniqueAt(domain, docs, key)} :: UniqueAt(domain, docs, key)
  }

  /** What is found has the key, and something is found whenever a document has it. */
  lemma FindIsHolder(domain: Domain, pick: Pick, docs: Docs, key: Key)
    requires Picks(pick)
    ensures Find(domain, pick, docs, key).Some? <==> Holders(domain, docs, key) != {}
    ensures var r := Find(domain, pick, docs, key); r.Some? ==> r.value in docs && DocKey(domain, docs[r.value]) == key
  {
    assert Holders(domain, docs, key) != {} ==> pick(Holders(domain, docs, key)) in Holders(domain, docs, key);
  }

  /** With one document of the key, every query finds that one. */
  lemma FindUnique(domain: Domain, pick: Pick, docs: Docs, key: Key, id: nat)
    requires Picks(pick) && UniqueAt(domain, docs, key) && id in Holders(domain, docs, key)
    ensures Find(domain, pick, docs, key) == Some(id)
  {
    FindIsHolder(domain, pick, docs, key);
  }

  /** Two queries are bound to find the same document exactly when no two documents share the key. */
  lemma FindAgreesIffUnique(domain: Domain, docs: Docs, key: Key)
    ensures (forall p: Pick, q: Pick :: Picks(p) && Picks(q) ==>
            Find(domain, p, docs, key) == Find(domain, q, docs, key)) <==>
            UniqueAt(domain, docs, key)
  {
    var found := Holders(domain, docs, key);
    if UniqueAt(domain, docs, key) {
      forall p: Pick, q: Pick | Picks(p) && Picks(q) ensures Find(domain, p, docs, key) == Find(domain, q, docs, key) {
        if x :| x in found { FindUnique(domain, p, docs, key, x); FindUnique(domain, q, docs, key, x); }
      }
    } else {
      var x, y :| x in found && y in found && x != y;
      var p, q := Prefer(x), Prefer(y);
      assert Find(domain, p, docs, key) == Some(x) && Find(domain, q, docs, key) == Some(y);
    }
  }

  /** The choice that takes `x` where it can. */
  function Prefer(x: nat): (pick: Pick)
    ensures Picks(pick) && forall s: set<nat> :: x in s ==> pick(s) == x
  {
    (s: set<nat>) => if x in s then x else if s == {} then 0 else Least(s)
  }

  /**
   What is known of stored fire plans: identifiers and addresses are trimmed before they are saved, and the database has
   an identifier, or else an address, that is unique.
   */
  ghost predicate FirePlanConstraints(docs: Docs) {
    && (forall x {:trigger docs[x]} :: x in docs ==>
          Trimmed(docs[x].external) && Trimmed(docs[x].address) && (docs[x].external != "" || docs[x].address != ""))
    && (forall x, y :: x in docs && y in docs && docs[x].external == docs[y].external != "" ==> x == y)
    && (forall x, y :: x in docs && y in docs && SameAddressOnly(docs[x], docs[y]) ==> x == y)
  }

  predicate SameAddressOnly(d: Doc, e: Doc) {
    d.external == e.external == "" && d.address == e.address
  }

  /** They make every identity key unique. */
  lemma FirePlanKeysUnique(docs: Docs)
    requires FirePlanConstraints(docs)
    ensures UniqueKeys(FirePlans, docs)
  {
    forall key, x, y | x in Holders(FirePlans, docs, key) && y in Holders(FirePlans, docs, key) ensures x == y {
      StripTrims(docs[x].external);
      StripTrims(docs[y].external);
      StripTrims(docs[x].address);
      StripTrims(docs[y].address);
    }
  }

  /**
   Stored KLGV plans: identifiers are trimmed before they are saved, and the database keeps them unique if present.
   */
  ghost predicate KlgvPlanConstraints(docs: Docs) {
    && (forall x {:trigger docs[x]} :: x in docs ==> Trimmed(docs[x].external))
    && (forall x, y :: x in docs && y in docs && docs[x].external == docs[y].external != "" ==> x == y)
  }

  /** So keys by identifier are unique; a key by name and address is exactly when no two plans without one share it. */
  lemma KlgvExternalKeysUnique(docs: Docs, key: Key)
    requires KlgvPlanConstraints(docs)
    ensures key.External? ==> UniqueAt(KlgvPlans, docs, key)
    ensures !key.External? ==>
              (UniqueAt(KlgvPlans, docs, key) <==>
               forall x, y :: x in docs && y in docs && NamedBy(docs[x], key) && NamedBy(docs[y], key) ==> x == y)
  {
    forall x | x in docs { StripTrims(docs[x].external); }
    forall x | x in docs && !key.External? ensures x in Holders(KlgvPlans, docs, key) <==> NamedBy(docs[x], key) { }
  }

  /** A plan without an identifier whose name and address make up the key. */
  predicate NamedBy(doc: Doc, key: Key) {
    doc.external == "" && key == NameAtAddress(Strip(doc.name) + ['\0'] + Strip(doc.address))
  }

  // ---- diff -----------------------------------------------------------------------------------------

  function Location(row: Row): Option<Point> {
    if row.longitude.None? || row.latitude.None? then None else Some((row.longitude.value, row.latitude.value))
  }

  predicate ContentChanged(doc: Doc, row: Row) {
    doc.sourceSha != row.sourceSha
  }

  /** A fire-plan field that the row fills in differently. */
  predicate Differs(current: string, value: string) {
    value != "" && current != value
  }

  predicate MetadataChanged(domain: Domain, doc: Doc, row: Row) {
    match domain
    case FirePlans =>
      || Differs(doc.name, row.title) || Differs(doc.address, row.address) || Differs(doc.postal, row.postal)
      || Differs(doc.city, row.city) || Differs(doc.fsd, row.fsd) || Differs(doc.bmz, row.bmz)
      || Differs(doc.rwa, row.rwa)
      || (Location(row).Some? && doc.location != Location(row))
    case KlgvPlans =>
      doc.name != row.title || doc.address != row.address || doc.postal != row.postal || doc.city != row.city
      || Location(row) != doc.location
  }

  datatype Proposal = Add | Update | Retire | Same

  function Propose(domain: Domain, current: Option<Doc>, row: Row): Proposal {
    if row.action.Deactivate? then
      if current.Some? && current.value.active then Retire else Same
    else if current.None? then Add
    else if ContentChanged(current.value, row) || MetadataChanged(domain, current.value, row) then Update
    else Same
  }

  function Current(domain: Domain, pick: Pick, docs: Docs, row: Row): Option<Doc> {
    DocAt(docs, Find(domain, pick, docs, RowKey(domain, row)))
  }

  datatype Counts = Counts(add: nat, update: nat, deactivate: nat, same: nat)

  function Counted(c: Counts, p: Proposal): Counts {
    match p
    case Add => c.(add := c.add + 1)
    case Update => c.(update := c.update + 1)
    case Retire => c.(deactivate := c.deactivate + 1)
    case Same => c.(same := c.same + 1)
  }

  /** The dictionary look-ups of the rows. */
  function Lookups(domain: Domain, pick: Pick, docs: Docs, rows: seq<Row>): (hits: seq<Option<nat>>)
    ensures |hits| == |rows|
  {
    seq(|rows|, j requires 0 <= j < |rows| => Find(domain, pick, docs, RowKey(domain, rows[j])))
  }

  /** What is proposed for each row, given the documents found. */
  function Proposals(domain: Domain, docs: Docs, rows: seq<Row>, hits: seq<Option<nat>>): (ps: seq<Proposal>)
    requires |hits| == |rows|
    ensures |ps| == |rows|
  {
    seq(|rows|, j requires 0 <= j < |rows| => Propose(domain, DocAt(docs, hits[j]), rows[j]))
  }

  /** One more row in the counts, and in the review list if it updates. */
  function SummedRow(p: Proposal, hit: Option<nat>, prior: (Counts, seq<nat>)): (Counts, seq<nat>) {
    (Counted(prior.0, p), if p.Update? && hit.Some? then prior.1 + [hit.value] else prior.1)
  }

  /** The counts of the first `n` rows, and the documents whose update needs a decision. */
  function Summed(ps: seq<Proposal>, hits: seq<Option<nat>>, n: nat): (Counts, seq<nat>)
    requires n <= |ps| == |hits|
  {
    if n == 0 then (Counts(0, 0, 0, 0), []) else SummedRow(ps[n - 1], hits[n - 1], Summed(ps, hits, n - 1))
  }

  /** `_preview_documents`. */
  function Preview(domain: Domain, pick: Pick, docs: Docs, rows: seq<Row>): (Counts, seq<nat>) {
    var hits := Lookups(domain, pick, docs, rows);
    Summed(Proposals(domain, docs, rows, hits), hits, |rows|)
  }

  method PreviewOne(domain: Domain, docs: Docs, hit: Option<nat>, row: Row, counts: Counts, review: seq<nat>)
    returns (counts': Counts, review': seq<nat>)
    ensures (counts', review') == SummedRow(Propose(domain, DocAt(docs, hit), row), hit, (counts, review))
  {
    counts', review' := counts, review;
    var current := DocAt(docs, hit);
    if row.action.Deactivate? {
      if current.Some? && current.value.active {
        counts' := counts.(deactivate := counts.deactivate + 1);
      } else {
        counts' := counts.(same := counts.same + 1);
      }
    } else if current.None? {
      counts' := counts.(add := counts.add + 1);
    } else if ContentChanged(current.value, row) || MetadataChanged(domain, current.value, row) {
      counts' := counts.(update := counts.update + 1);
      review' := review + [hit.value];
    } else {
      counts' := counts.(same := counts.same + 1);
    }
  }

  method PreviewDocuments(
      domain: Domain, pick: Pick, docs: Docs, rows: seq<Row>) returns (counts: Counts, review: seq<nat>)
    ensures (counts, review) == Preview(domain, pick, docs, rows)
  {
    counts, review := Counts(0, 0, 0, 0), [];
    ghost var hits := Lookups(domain, pick, docs, rows);
    ghost var ps := Proposals(domain, docs, rows, hits);
    for i := 0 to |rows|
      invariant (counts, review) == Summed(ps, hits, i)
    {
      counts, review := PreviewOne(domain, docs, Find(domain, pick, docs, RowKey(domain, rows[i])), rows[i], counts,
          review);
    }
  }

  /** An update is only ever proposed for a document that was found. */
  ghost predicate UpdatesHit(ps: seq<Proposal>, hits: seq<Option<nat>>)
    requires |ps| == |hits|
  {
    forall j :: 0 <= j < |ps| && ps[j].Update? ==> hits[j].Some?
  }

  lemma {:induction false} SummedPartitions(ps: seq<Proposal>, hits: seq<Option<nat>>, n: nat)
    requires n <= |ps| == |hits| && UpdatesHit(ps, hits)
    ensures var (c, review) := Summed(ps, hits, n);
            c.add + c.update + c.deactivate + c.same == n && |review| == c.update
  {
    if n > 0 { SummedPartitions(ps, hits, n - 1); }
  }

  /** Each row is counted once, and the review list has one entry per proposed update. */
  lemma PreviewPartitions(domain: Domain, pick: Pick, docs: Docs, rows: seq<Row>)
    ensures var (c, review) := Preview(domain, pick, docs, rows);
            c.add + c.update + c.deactivate + c.same == |rows| && |review| == c.update
  {
    var hits := Lookups(domain, pick, docs, rows);
    ProposalsHit(domain, docs, rows, hits);
    SummedPartitions(Proposals(domain, docs, rows, hits), hits, |rows|);
  }

  lemma ProposalsHit(domain: Domain, docs: Docs, rows: seq<Row>, hits: seq<Option<nat>>)
    requires |hits| == |rows|
    ensures UpdatesHit(Proposals(domain, docs, rows, hits), hits)
  {
  }

  // ---- applying one row -----------------------------------------------------------------------------

  datatype Decision = Approved | Skipped

  type Decisions = map<nat, Decision>

  datatype Failure = Undecided | OutputMissing

  datatype Verdict = Create | Replace | Merge | Withdraw | Skip | Keep

  /** The sanitised PDF of the row is still staged, unaltered. */
  predicate OutputOk(staged: map<string, string>, row: Row) {
    row.staging.Some? && row.staging.value in staged && staged[row.staging.value] == row.sanitizedSha
  }

  /** What the loop of `_apply_documents` does with a row, given the document found for it. */
  function Decide(
      domain: Domain, current: Option<Doc>, decision: Option<Decision>, staged: map<string, string>, row: Row)
    : Result<Verdict, Failure>
  {
    if row.action.Deactivate? then Ok(if current.Some? && current.value.active then Withdraw else Keep)
    else if current.None? then
      if OutputOk(staged, row) then Ok(Create) else Err(OutputMissing)
    else if !ContentChanged(current.value, row) && !MetadataChanged(domain, current.value, row) then Ok(Keep)
    else if decision.None? then Err(Undecided)
    else if decision.value.Skipped? then Ok(Skip)
    else if !ContentChanged(current.value, row) then Ok(Merge)
    else if OutputOk(staged, row) then Ok(Replace) else Err(OutputMissing)
  }

  function Filled(current: string, value: string): string {
    if value != "" then value else current
  }

  /** The metadata a row leaves behind: a blank keeps a fire plan's old value but overwrites a KLGV plan's. */
  function Merged(domain: Domain, doc: Doc, row: Row): Doc {
    match domain
    case FirePlans =>
      doc.(name := Filled(doc.name, row.title), address := Filled(doc.address, row.address),
          postal := Filled(doc.postal, row.postal),
           city := Filled(doc.city, row.city), fsd := Filled(doc.fsd, row.fsd), bmz := Filled(doc.bmz, row.bmz),
           rwa := Filled(doc.rwa, row.rwa), location := if Location(row).Some? then Location(row) else doc.location)
    case KlgvPlans =>
      doc.(name := row.title, address := row.address, postal := row.postal, city := row.city, location := Location(row))
  }

  /** The destination of a promoted PDF: KLGV replaces in place, everything else gets a fresh name. */
  function Destination(domain: Domain, current: Option<nat>, draw: nat): Path {
    if domain.FirePlans? then Plain(draw) else if current.Some? then Plan(current.value) else Plan(draw)
  }

  function Created(domain: Domain, row: Row, path: Path, now: int): Doc {
    var blank := Doc(
      row.external, row.title, row.address, row.postal, row.city, "", "", "", Location(row), row.file,
      row.sanitizedSha, row.sourceSha, path, true, now);
    if domain.FirePlans? then blank.(fsd := row.fsd, bmz := row.bmz, rwa := row.rwa) else blank
  }

  /** A document after its row was applied. */
  function Effect(domain: Domain, doc: Doc, row: Row, v: Verdict, path: Path, now: int): Doc {
    match v
    case Replace =>
      Merged(domain, doc, row).(
        file := row.file, sha := row.sanitizedSha, sourceSha := row.sourceSha, path := path, active := true,
        updatedAt := now)
    case Merge => Merged(domain, doc, row).(updatedAt := now)
    case Withdraw => doc.(active := false, updatedAt := now)
    case _ => doc
  }

  /** Applying a row never changes the identity key of the document it matched. */
  lemma EffectKeepsKey(domain: Domain, doc: Doc, row: Row, v: Verdict, path: Path, now: int)
    requires DocKey(domain, doc) == RowKey(domain, row)
    ensures DocKey(domain, Effect(domain, doc, row, v, path, now)) == DocKey(domain, doc)
  {
  }

  /** A created document has the identity key of its row. */
  lemma CreatedHasRowKey(domain: Domain, row: Row, path: Path, now: int)
    ensures DocKey(domain, Created(domain, row, path, now)) == RowKey(domain, row)
  {
  }

  /** Once applied, a row proposes nothing more, unless its update was skipped. */
  lemma AppliedProposesNothing(
    domain: Domain, current: Option<Doc>, decision: Option<Decision>, staged: map<string, string>, row: Row, path: Path,
    now: int)
    requires Decide(domain, current, decision, staged, row).Ok?
    ensures var v := Decide(domain, current, decision, staged, row).value;
            && (current.Some? ==>
                  Propose(domain, Some(Effect(domain, current.value, row, v, path, now)), row) == if v.Skip? then Update
                      else Same)
            && (current.None? && v.Create? ==> Propose(domain, Some(Created(domain, row, path, now)), row) == Same)
            && (current.None? && !v.Create? ==> Propose(domain, None, row) == Same)
            && (v.Skip? ==> Propose(domain, current, row) == Update)
  {
    if current.Some? { MergedSettles(domain, current.value, row); }
  }

  /** After a merge the row has nothing left to change in the metadata. */
  lemma MergedSettles(domain: Domain, doc: Doc, row: Row)
    ensures !MetadataChanged(domain, Merged(domain, doc, row), row)
  {
  }

  /** The verdict is the proposal, with an update either carried out or skipped. */
  function VerdictProposal(v: Verdict): Proposal {
    match v
    case Create => Add
    case Replace => Update
    case Merge => Update
    case Skip => Update
    case Withdraw => Retire
    case Keep => Same
  }

  lemma VerdictMatchesProposal(
    domain: Domain, current: Option<Doc>, decision: Option<Decision>, staged: map<string, string>, row: Row)
    ensures var d := Decide(domain, current, decision, staged, row);
            && (d.Ok? ==> VerdictProposal(d.value) == Propose(domain, current, row))
            && (d == Err(Undecided) <==> Propose(domain, current, row).Update? && decision.None?)
  {
  }

  // ---- what rows mean, field by field ---------------------------------------------------------------

  /** A fire-plan text after a row: the row's, unless that is blank. */
  predicate Overlaid(before: string, text: string, after: string) {
    if text == "" then after == before else after == text
  }

  /** Both coordinates were given. */
  predicate HasPoint(row: Row) {
    row.longitude.Some? && row.latitude.Some?
  }

  /**
   The descriptive fields after a row: a fire plan takes over what the row fills in and keeps the rest, location
   included; a KLGV plan reads as the row does, blanks included, and has no fire-plan fields to change.
   */
  predicate Described(domain: Domain, before: Doc, row: Row, after: Doc) {
    match domain
    case FirePlans =>
      && Overlaid(before.name, row.title, after.name) && Overlaid(before.address, row.address, after.address)
      && Overlaid(before.postal, row.postal, after.postal) && Overlaid(before.city, row.city, after.city)
      && Overlaid(before.fsd, row.fsd, after.fsd) && Overlaid(before.bmz, row.bmz, after.bmz)
      && Overlaid(before.rwa, row.rwa, after.rwa)
      && (HasPoint(row) ==> after.location == Some((row.longitude.value, row.latitude.value)))
      && (!HasPoint(row) ==> after.location == before.location)
    case KlgvPlans =>
      && after.name == row.title && after.address == row.address && after.postal == row.postal && after.city == row.city
      && after.fsd == before.fsd && after.bmz == before.bmz && after.rwa == before.rwa
      && (HasPoint(row) ==> after.location == Some((row.longitude.value, row.latitude.value)))
      && (!HasPoint(row) ==> after.location == None)
  }

  /** A row asks for a metadata change exactly when the document does not already read as the row would leave it. */
  lemma ChangedIffDescribedOtherwise(domain: Domain, doc: Doc, row: Row)
    ensures MetadataChanged(domain, doc, row) <==> !Described(domain, doc, row, doc)
  {
  }

  /** The document a row found, after the row was dealt with by the verdict at the given time. */
  predicate LeftAs(domain: Domain, before: Doc, row: Row, v: Verdict, id: nat, draw: nat, time: int, after: Doc) {
    match v
    case Replace =>
      && Described(domain, before, row, after) && after.external == before.external
      && after.file == row.file && after.sha == row.sanitizedSha && after.sourceSha == row.sourceSha && after.active
      && after.path == (if domain.FirePlans? then Plain(draw) else Plan(id)) && after.updatedAt == time
    case Merge =>
      && Described(domain, before, row, after) && after.external == before.external
      && after.file == before.file && after.sha == before.sha && after.sourceSha == before.sourceSha
      && after.path == before.path
      && after.active == before.active && after.updatedAt == time
    case Withdraw => before.active && after == before.(active := false, updatedAt := time)
    case _ => after == before
  }

  /** A document created for a row. */
  predicate MadeFrom(domain: Domain, row: Row, draw: nat, time: int, doc: Doc) {
    && doc.external == row.external && doc.name == row.title && doc.address == row.address && doc.postal == row.postal
    && doc.city == row.city && doc.file == row.file && doc.sha == row.sanitizedSha && doc.sourceSha == row.sourceSha
    && doc.active
    && doc.updatedAt == time && doc.path == (if domain.FirePlans? then Plain(draw) else Plan(draw))
    && (doc.location.Some? <==> HasPoint(row))
    && (HasPoint(row) ==> doc.location == Some((row.longitude.value, row.latitude.value)))
    && (domain.FirePlans? ==> doc.fsd == row.fsd && doc.bmz == row.bmz && doc.rwa == row.rwa)
    && (domain.KlgvPlans? ==> doc.fsd == "" && doc.bmz == "" && doc.rwa == "")
  }

  /** The row would change the document: other content, or a description that does not read as the row leaves it. */
  predicate Amends(domain: Domain, before: Doc, row: Row) {
    before.sourceSha != row.sourceSha || !Described(domain, before, row, before)
  }

  /** The verdict that fits a row, told from the document it found and the reviewer's decision alone. */
  predicate VerdictFits(domain: Domain, before: Option<Doc>, row: Row, decision: Option<Decision>, v: Verdict) {
    match v
    case Create => row.action.Upsert? && before.None?
    case Replace =>
      row.action.Upsert? && before.Some? && before.value.sourceSha != row.sourceSha && decision == Some(Approved)
    case Merge =>
      row.action.Upsert? && before.Some? && before.value.sourceSha == row.sourceSha
      && !Described(domain, before.value, row, before.value) && decision == Some(Approved)
    case Skip => row.action.Upsert? && before.Some? && Amends(domain, before.value, row) && decision == Some(Skipped)
    case Withdraw => row.action.Deactivate? && before.Some? && before.value.active
    case Keep =>
      || (row.action.Deactivate? && !(before.Some? && before.value.active))
      || (row.action.Upsert? && before.Some? && !Amends(domain, before.value, row))
  }

  lemma MergedDescribes(domain: Domain, doc: Doc, row: Row)
    ensures var after := Merged(domain, doc, row);
            && Described(domain, doc, row, after) && after.external == doc.external && after.file == doc.file
            && after.sha == doc.sha
            && after.sourceSha == doc.sourceSha && after.path == doc.path && after.active == doc.active
  {
  }

  /** The description is all that `Described` looks at. */
  lemma DescribedAlike(domain: Domain, before: Doc, row: Row, after: Doc, other: Doc)
    requires Described(domain, before, row, after)
    requires other.name == after.name && other.address == after.address && other.postal == after.postal
    requires other.city == after.city && other.fsd == after.fsd && other.bmz == after.bmz && other.rwa == after.rwa
    requires other.location == after.location
    ensures Described(domain, before, row, other)
  {
  }

  lemma EffectLeaves(domain: Domain, doc: Doc, row: Row, v: Verdict, id: nat, draw: nat, time: int)
    requires v.Withdraw? ==> doc.active
    ensures LeftAs(domain, doc, row, v, id, draw, time,
              Effect(domain, doc, row, v, Destination(domain, Some(id), draw), time))
  {
    var after := Effect(domain, doc, row, v, Destination(domain, Some(id), draw), time);
    if v.Replace? || v.Merge? {
      MergedDescribes(domain, doc, row);
      DescribedAlike(domain, doc, row, Merged(domain, doc, row), after);
    }
  }

  lemma CreatedIsMade(domain: Domain, row: Row, draw: nat, time: int)
    ensures MadeFrom(domain, row, draw, time, Created(domain, row, Destination(domain, None, draw), time))
  {
  }

  /** The loop hands out exactly the verdict that fits; a promoted output was staged with the digest it should have. */
  lemma DecideFits(
      domain: Domain, current: Option<Doc>, decision: Option<Decision>, staged: map<string, string>, row: Row)
    ensures var r := Decide(domain, current, decision, staged, row);
            && (forall v :: r == Ok(v) <==>
                  && VerdictFits(domain, current, row, decision, v)
                  && (v.Create? || v.Replace? ==>
                        row.staging.Some? && row.staging.value in staged
                        && staged[row.staging.value] == row.sanitizedSha))
            && (r == Err(Undecided) <==>
                  row.action.Upsert? && current.Some? && Amends(domain, current.value, row) && decision.None?)
  {
    if current.Some? { ChangedIffDescribedOtherwise(domain, current.value, row); }
  }

  /** The proposal that fits a row, told from the document found for it. */
  predicate ProposalFits(domain: Domain, before: Option<Doc>, row: Row, p: Proposal) {
    match p
    case Add => row.action.Upsert? && before.None?
    case Update => row.action.Upsert? && before.Some? && Amends(domain, before.value, row)
    case Retire => row.action.Deactivate? && before.Some? && before.value.active
    case Same =>
      || (row.action.Deactivate? && !(before.Some? && before.value.active))
      || (row.action.Upsert? && before.Some? && !Amends(domain, before.value, row))
  }

  lemma ProposesWhatFits(domain: Domain, current: Option<Doc>, row: Row, p: Proposal)
    ensures Propose(domain, current, row) == p <==> ProposalFits(domain, current, row, p)
  {
    if current.Some? { ChangedIffDescribedOtherwise(domain, current.value, row); }
  }

  /** The rows among the first `n` with the given proposal. */
  function Proposing(ps: seq<Proposal>, n: nat, p: Proposal): set<nat>
    requires n <= |ps|
  {
    set j: nat | j < n && ps[j] == p
  }

  lemma ProposingNext(ps: seq<Proposal>, n: nat, p: Proposal)
    requires n < |ps|
    ensures |Proposing(ps, n + 1, p)| == |Proposing(ps, n, p)| + if ps[n] == p then 1 else 0
  {
    if ps[n] == p {
      assert Proposing(ps, n + 1, p) == Proposing(ps, n, p) + {n};
    } else {
      assert Proposing(ps, n + 1, p) == Proposing(ps, n, p);
    }
  }

  lemma {:induction false} SummedCounts(ps: seq<Proposal>, hits: seq<Option<nat>>, n: nat)
    requires n <= |ps| == |hits|
    ensures var c := Summed(ps, hits, n).0;
            && c.add == |Proposing(ps, n, Add)| && c.update == |Proposing(ps, n, Update)|
            && c.deactivate == |Proposing(ps, n, Retire)| && c.same == |Proposing(ps, n, Same)|
  {
    if n == 0 {
      assert forall p :: Proposing(ps, 0, p) == {};
    } else {
      SummedCounts(ps, hits, n - 1);
      ProposingNext(ps, n - 1, Add);
      ProposingNext(ps, n - 1, Update);
      ProposingNext(ps, n - 1, Retire);
      ProposingNext(ps, n - 1, Same);
    }
  }

  lemma {:induction false} SummedReview(ps: seq<Proposal>, hits: seq<Option<nat>>, n: nat, x: nat)
    requires n <= |ps| == |hits| && UpdatesHit(ps, hits)
    ensures x in Summed(ps, hits, n).1 <==> exists j :: 0 <= j < n && ps[j].Update? && hits[j] == Some(x)
  {
    if n > 0 { SummedReview(ps, hits, n - 1, x); }
  }

  /** The rows for which a proposal fits. */
  function Fitting(domain: Domain, pick: Pick, docs: Docs, rows: seq<Row>, p: Proposal): set<nat> {
    set j: nat | j < |rows| && ProposalFits(domain, Current(domain, pick, docs, rows[j]), rows[j], p)
  }

  /**
   The preview counts, of each kind, the rows for which that proposal fits the document found, and lists for review
   the documents of the rows that would amend them.
   */
  lemma PreviewCountsWhatFits(domain: Domain, pick: Pick, docs: Docs, rows: seq<Row>, x: nat)
    ensures var (c, review) := Preview(domain, pick, docs, rows);
            && c.add == |Fitting(domain, pick, docs, rows, Add)|
            && c.update == |Fitting(domain, pick, docs, rows, Update)|
            && c.deactivate == |Fitting(domain, pick, docs, rows, Retire)|
            && c.same == |Fitting(domain, pick, docs, rows, Same)|
            && (x in review <==>
                  exists j :: j in Fitting(domain, pick, docs, rows, Update)
                    && Find(domain, pick, docs, RowKey(domain, rows[j])) == Some(x))
  {
    var hits := Lookups(domain, pick, docs, rows);
    var ps := Proposals(domain, docs, rows, hits);
    forall p ensures Proposing(ps, |rows|, p) == Fitting(domain, pick, docs, rows, p) {
      forall j: nat | j < |rows|
        ensures ps[j] == p <==> ProposalFits(domain, Current(domain, pick, docs, rows[j]), rows[j], p)
      {
        ProposesWhatFits(domain, DocAt(docs, hits[j]), rows[j], p);
      }
    }
    SummedCounts(ps, hits, |rows|);
    ProposalsHit(domain, docs, rows, hits);
    SummedReview(ps, hits, |rows|, x);
    assert forall j :: j in Proposing(ps, |rows|, Update) <==> j in Fitting(domain, pick, docs, rows, Update);
  }

  /**
   When a row and a document have one identity: if either has an external identifier, exactly when the trimmed
   identifiers agree; otherwise a fire plan goes by its trimmed address, a KLGV plan by name and address together.
   */
  lemma IdentityMeans(domain: Domain, doc: Doc, row: Row)
    ensures RowKey(domain, row) == DocKey(domain, doc) <==>
            if Strip(row.external) != "" || Strip(doc.external) != "" then Strip(row.external) == Strip(doc.external)
            else if domain.FirePlans? then Strip(row.address) == Strip(doc.address)
            else Strip(row.title) + ['\0'] + Strip(row.address) == Strip(doc.name) + ['\0'] + Strip(doc.address)
  {
  }

  lemma SeparatorAt(name: string, address: string, i: nat)
    requires '\0' !in name && i <= |name| + |address|
    ensures i < |name| ==> (name + ['\0'] + address)[i] != '\0'
    ensures i == |name| ==> (name + ['\0'] + address)[i] == '\0'
  {
    if i < |name| { assert name[i] in name; }
  }

  /** With names free of the separator, the latter means that both agree. */
  lemma JoinedMeans(name: string, address: string, name': string, address': string)
    requires '\0' !in name && '\0' !in name'
    ensures name + ['\0'] + address == name' + ['\0'] + address' <==> name == name' && address == address'
  {
    var s, s' := name + ['\0'] + address, name' + ['\0'] + address';
    if s == s' {
      assert |s| == |s'|;
      SeparatorAt(name, address, |name|);
      SeparatorAt(name', address', |name'|);
      SeparatorAt(name, address, |name'|);
      SeparatorAt(name', address', |name|);
      assert |name| == |name'|;
      assert name == s[..|name|] && name' == s'[..|name'|];
      assert address == s[|name| + 1..] && address' == s'[|name'| + 1..];
    }
  }
}
