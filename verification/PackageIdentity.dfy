/**
 PDF packages: the loop over the manifest rows that keeps identities and file names unique, and how far package
 identities carry over to the import identities used afterwards.
 */
module PackageIdentity {
  import opened Common
  import opened DocumentImport
  import opened DocumentReview

  /** A manifest row as read; `coordinates` is nothing if a coordinate is malformed or out of range. */
  datatype Raw = Raw(
    action: string, external: string, name: string, address: string, postal: string, city: string, filename: string,
    coordinates: Option<(Option<real>, Option<real>)>)

  datatype Entry = Entry(action: Action, external: string, title: string, address: string, postal: string, city: string,
      filename: string)

  /** The identity that the package check compares. */
  datatype Identity = ByExternal(id: string) | ByAddress(address: string) | ByNameAndAddress(joined: string)

  datatype PackageError =
    | InvalidAction | IdentityRequired | FieldRequired | DuplicateIdentity | UnexpectedFile | InvalidFilename
    | DuplicateFile
    | MissingFile | FileTooLarge | InvalidCoordinate | UndeclaredMember

  /** The archive: the sizes of its members other than the manifest, and the size limit. */
  datatype Archive = Archive(members: map<string, nat>, limit: nat)

  // ---- one row --------------------------------------------------------------------------------------

  function ActionOf(raw: Raw): Option<Action> {
    if raw.action == "" || raw.action == "upsert" then Some(Upsert)
    else if raw.action == "deactivate" then Some(Deactivate) else None
  }

  /** `_required`. */
  function Required(value: string): Option<string> {
    if Strip(value) == "" || |Strip(value)| > 255 then None else Some(Strip(value))
  }

  /** The address a row goes by: a KLGV deactivation has none. */
  function AddressOf(domain: Domain, raw: Raw, action: Action): Option<string> {
    if domain.FirePlans? then Some(Strip(raw.address))
    else if action.Upsert? then Required(raw.address) else Some("")
  }

  function IdentityOf(domain: Domain, raw: Raw, address: string): Option<Identity> {
    if Strip(raw.external) != "" then Some(ByExternal(Strip(raw.external)))
    else if domain.KlgvPlans? then Some(ByNameAndAddress(Strip(raw.name) + ['\0'] + address))
    else if address != "" then Some(ByAddress(address)) else None
  }

  predicate ValidFilename(f: string) {
    |f| >= 4 && f[|f| - 4..] == ".pdf" && '/' !in f
  }

  /** The check of the file name, apart from repetition. */
  function FileError(raw: Raw, action: Action, archive: Archive): Option<PackageError> {
    if action.Deactivate? then if raw.filename != "" then Some(UnexpectedFile) else None
    else if !ValidFilename(raw.filename) then Some(InvalidFilename)
    else if raw.filename !in archive.members then Some(MissingFile)
    else if archive.members[raw.filename] > archive.limit then Some(FileTooLarge)
    else None
  }

  predicate FieldsOk(domain: Domain, raw: Raw, action: Action) {
    domain.KlgvPlans? && action.Upsert? ==>
        Required(raw.name).Some? && Required(raw.postal).Some? && Required(raw.city).Some?
  }

  function EntryOf(domain: Domain, raw: Raw, action: Action, address: string): Entry {
    if action.Deactivate? then
      Entry(Deactivate, Strip(raw.external), "", address, if domain.FirePlans? then raw.postal else "",
            if domain.FirePlans? then raw.city else "", raw.filename)
    else if domain.FirePlans? then
      Entry(Upsert, Strip(raw.external), Strip(raw.name), address, raw.postal, raw.city, raw.filename)
    else
      Entry(Upsert, Strip(raw.external), Strip(raw.name), address, Strip(raw.postal), Strip(raw.city), raw.filename)
  }

  /** A row that no check of its own refuses, with its identity and its entry. */
  function Parsed(domain: Domain, raw: Raw, archive: Archive): Option<(Identity, Entry)> {
    var action := ActionOf(raw);
    if action.None? then None
    else
      var address := AddressOf(domain, raw, action.value);
      if address.None? then None
      else
        var identity := IdentityOf(domain, raw, address.value);
        if identity.None? || FileError(raw, action.value, archive).Some? || raw.coordinates.None?
            || !FieldsOk(domain, raw, action.value)
        then None
        else Some((identity.value, EntryOf(domain, raw, action.value, address.value)))
  }

  // ---- the package ----------------------------------------------------------------------------------

  /** What the loop has gathered: the entries, the identities seen, and the file names declared. */
  datatype Gathered = Gathered(entries: seq<Entry>, seen: set<Identity>, declared: set<string>)

  /** One more row, unless it is refused or repeats an identity or a file name. */
  function Gather(g: Gathered, parsed: Option<(Identity, Entry)>): Option<Gathered> {
    if parsed.None? then None
    else
      var (identity, entry) := parsed.value;
      if identity in g.seen || (entry.action.Upsert? && entry.filename in g.declared) then None
      else Some(Gathered(g.entries + [entry], g.seen + {identity}, if entry.action.Upsert?
          then g.declared + {entry.filename} else g.declared))
  }

  function ParsedRows(domain: Domain, raws: seq<Raw>, archive: Archive): (ps: seq<Option<(Identity, Entry)>>)
    ensures |ps| == |raws|
  {
    seq(|raws|, i requires 0 <= i < |raws| => Parsed(domain, raws[i], archive))
  }

  function GatherAll(ps: seq<Option<(Identity, Entry)>>, n: nat): Option<Gathered>
    requires n <= |ps|
  {
    if n == 0 then Some(Gathered([], {}, {}))
    else
      var prior := GatherAll(ps, n - 1);
      if prior.None? then None else Gather(prior.value, ps[n - 1])
  }

  /** Rows `i` and `j` share an identity or a file name. */
  ghost predicate Clash(p: (Identity, Entry), q: (Identity, Entry)) {
    p.0 == q.0 || (p.1.action.Upsert? && q.1.action.Upsert? && p.1.filename == q.1.filename)
  }

  /** Every row is accepted on its own and no two of the first `n` clash. */
  ghost predicate Clean(ps: seq<Option<(Identity, Entry)>>, n: nat)
    requires n <= |ps|
  {
    && (forall i :: 0 <= i < n ==> ps[i].Some?)
    && (forall i, j :: 0 <= i < j < n ==> !Clash(ps[i].value, ps[j].value))
  }

  /** What has been gathered comes from the rows, and all of it. */
  ghost predicate FromRows(ps: seq<Option<(Identity, Entry)>>, n: nat, g: Gathered)
    requires n <= |ps| && forall i :: 0 <= i < n ==> ps[i].Some?
  {
    && |g.entries| == n && (forall i :: 0 <= i < n ==> g.entries[i] == ps[i].value.1)
    && (forall x :: x in g.seen <==> exists i :: 0 <= i < n && ps[i].value.0 == x)
    && (forall f :: f in g.declared <==>
        exists i :: 0 <= i < n && ps[i].value.1.action.Upsert? && ps[i].value.1.filename == f)
  }

  lemma {:induction false} GatheredFromRows(ps: seq<Option<(Identity, Entry)>>, n: nat)
    requires n <= |ps| && GatherAll(ps, n).Some?
    ensures (forall i :: 0 <= i < n ==> ps[i].Some?) && FromRows(ps, n, GatherAll(ps, n).value)
  {
    if n > 0 {
      GatheredFromRows(ps, n - 1);
      FromRowsNext(ps, n - 1, GatherAll(ps, n - 1).value, GatherAll(ps, n).value);
    }
  }

  /** The loop gathers exactly clean rows. */
  lemma {:induction false} GathersExactlyClean(ps: seq<Option<(Identity, Entry)>>, n: nat)
    requires n <= |ps|
    ensures GatherAll(ps, n).Some? <==> Clean(ps, n)
  {
    if n > 0 {
      GathersExactlyClean(ps, n - 1);
      CleanBefore(ps, n);
      if GatherAll(ps, n - 1).Some? && ps[n - 1].Some? { GathersNext(ps, n - 1); }
    }
  }

  lemma GathersNext(ps: seq<Option<(Identity, Entry)>>, n: nat)
    requires n < |ps| && ps[n].Some? && GatherAll(ps, n).Some? && Clean(ps, n)
    ensures GatherAll(ps, n + 1).Some? <==> Clean(ps, n + 1)
  {
    GatheredFromRows(ps, n);
    ClashIffSeen(ps, n, GatherAll(ps, n).value);
    CleanNext(ps, n);
  }

  lemma CleanBefore(ps: seq<Option<(Identity, Entry)>>, n: nat)
    requires 0 < n <= |ps|
    ensures Clean(ps, n) ==> Clean(ps, n - 1) && ps[n - 1].Some?
  {
  }

  lemma CleanNext(ps: seq<Option<(Identity, Entry)>>, n: nat)
    requires n < |ps| && Clean(ps, n) && ps[n].Some?
    ensures Clean(ps, n + 1) <==> !exists i :: 0 <= i < n && Clash(ps[i].value, ps[n].value)
  {
  }

  lemma ClashIffSeen(ps: seq<Option<(Identity, Entry)>>, n: nat, g: Gathered)
    requires n < |ps| && (forall i :: 0 <= i <= n ==> ps[i].Some?) && FromRows(ps, n, g)
    ensures Gather(g, ps[n]).None? <==> exists i :: 0 <= i < n && Clash(ps[i].value, ps[n].value)
  {
  }

  lemma FromRowsNext(ps: seq<Option<(Identity, Entry)>>, n: nat, g: Gathered, g': Gathered)
    requires n < |ps| && (forall i :: 0 <= i <= n ==> ps[i].Some?) && FromRows(ps, n, g) && Gather(g, ps[n]) == Some(g')
    ensures FromRows(ps, n + 1, g')
  {
    forall x ensures x in g'.seen <==> exists i :: 0 <= i < n + 1 && ps[i].value.0 == x {
      if x in g'.seen && x !in g.seen { assert ps[n].value.0 == x; }
    }
    forall f
      ensures f in g'.declared <==>
              exists i :: 0 <= i < n + 1 && ps[i].value.1.action.Upsert? && ps[i].value.1.filename == f
    {
      if f in g'.declared && f !in g.declared { assert ps[n].value.1.filename == f; }
    }
  }

  /** Row `i` declares the file `f`. */
  ghost predicate Declares(p: Option<(Identity, Entry)>, f: string) {
    p.Some? && p.value.1.action.Upsert? && p.value.1.filename == f
  }

  /** Every member of the archive is declared by a row. */
  ghost predicate AllDeclared(ps: seq<Option<(Identity, Entry)>>, archive: Archive) {
    forall f {:trigger f in archive.members} :: f in archive.members ==> exists i :: 0 <= i < |ps| && Declares(ps[i], f)
  }

  lemma DeclaredIff(ps: seq<Option<(Identity, Entry)>>, archive: Archive, g: Gathered)
    requires GatherAll(ps, |ps|) == Some(g)
    ensures archive.members.Keys <= g.declared <==> AllDeclared(ps, archive)
  {
    GatheredFromRows(ps, |ps|);
    forall f ensures f in g.declared <==> exists i :: 0 <= i < |ps| && Declares(ps[i], f) {
      if f in g.declared {
        var i :| 0 <= i < |ps| && ps[i].value.1.action.Upsert? && ps[i].value.1.filename == f;
        assert Declares(ps[i], f);
      }
    }
  }

  // ---- what an accepted package is, told from the manifest ------------------------------------------

  predicate Deactivates(raw: Raw) {
    raw.action == "deactivate"
  }

  /** A text that is there and not too long, once trimmed. */
  predicate Given(value: string) {
    1 <= |Strip(value)| <= 255
  }

  /** The file of a row: none for a deactivation, and otherwise a PDF member of the archive that is not too large. */
  predicate FileFits(raw: Raw, archive: Archive) {
    if Deactivates(raw) then raw.filename == ""
    else
      && |raw.filename| >= 4 && raw.filename[|raw.filename| - 4..] == ".pdf" && '/' !in raw.filename
      && raw.filename in archive.members && archive.members[raw.filename] <= archive.limit
  }

  /** The texts of a row: what identifies a fire plan, and for a KLGV plan all four unless it is deactivated. */
  predicate TextsFit(domain: Domain, raw: Raw) {
    if domain.FirePlans? then Strip(raw.external) != "" || Strip(raw.address) != ""
    else !Deactivates(raw) ==> Given(raw.address) && Given(raw.name) && Given(raw.postal) && Given(raw.city)
  }

  /** A row that is accepted on its own. */
  predicate RowFits(domain: Domain, raw: Raw, archive: Archive) {
    (raw.action == "" || raw.action == "upsert" || raw.action == "deactivate") && raw.coordinates.Some?
    && FileFits(raw, archive) && TextsFit(domain, raw)
  }

  /** The address that a row is told apart by. */
  function ToldAddress(domain: Domain, raw: Raw): string {
    if domain.KlgvPlans? && Deactivates(raw) then "" else Strip(raw.address)
  }

  /** Two rows name one plan: by identifier, or without one by address, for KLGV plans together with the name. */
  predicate SamePlan(domain: Domain, a: Raw, b: Raw) {
    if Strip(a.external) != "" || Strip(b.external) != "" then Strip(a.external) == Strip(b.external)
    else if domain.FirePlans? then Strip(a.address) == Strip(b.address)
    else Strip(a.name) + ['\0'] + ToldAddress(domain, a) == Strip(b.name) + ['\0'] + ToldAddress(domain, b)
  }

  /** Two rows bring one file. */
  predicate SameFile(a: Raw, b: Raw) {
    !Deactivates(a) && !Deactivates(b) && a.filename == b.filename
  }

  predicate Interfere(domain: Domain, a: Raw, b: Raw) {
    SamePlan(domain, a, b) || SameFile(a, b)
  }

  /** The entry reads as the row does, trimmed; a deactivation drops the name, and for KLGV plans everything else. */
  predicate ReadsAs(domain: Domain, raw: Raw, e: Entry) {
    && e.external == Strip(raw.external) && e.filename == raw.filename && (e.action.Deactivate? <==> Deactivates(raw))
    && e.title == (if Deactivates(raw) then "" else Strip(raw.name)) && e.address == ToldAddress(domain, raw)
    && match domain
       case FirePlans => e.postal == raw.postal && e.city == raw.city
       case KlgvPlans =>
         && e.postal == (if Deactivates(raw) then "" else Strip(raw.postal))
         && e.city == (if Deactivates(raw) then "" else Strip(raw.city))
  }

  lemma ActionMeans(raw: Raw)
    ensures ActionOf(raw).Some? <==> raw.action == "" || raw.action == "upsert" || raw.action == "deactivate"
    ensures ActionOf(raw) == Some(Deactivate) <==> Deactivates(raw)
  {
    assert "deactivate" != "upsert" by { assert |"deactivate"| != |"upsert"|; }
    assert "deactivate" != "" by { assert |"deactivate"| != 0; }
  }

  lemma ParsedIff(domain: Domain, raw: Raw, archive: Archive)
    ensures Parsed(domain, raw, archive).Some? <==> RowFits(domain, raw, archive)
    ensures Parsed(domain, raw, archive).Some? ==> ReadsAs(domain, raw, Parsed(domain, raw, archive).value.1)
  {
    ActionMeans(raw);
  }

  lemma ClashMeans(domain: Domain, a: Raw, b: Raw, archive: Archive)
    requires RowFits(domain, a, archive) && RowFits(domain, b, archive)
    ensures Parsed(domain, a, archive).Some? && Parsed(domain, b, archive).Some?
    ensures Clash(Parsed(domain, a, archive).value, Parsed(domain, b, archive).value) <==>
            Interfere(domain, a, b)
  {
    ParsedIff(domain, a, archive);
    ParsedIff(domain, b, archive);
    ActionMeans(a);
    ActionMeans(b);
    IdentityMeansPlan(domain, a, b, archive);
  }

  lemma IdentityMeansPlan(domain: Domain, a: Raw, b: Raw, archive: Archive)
    requires Parsed(domain, a, archive).Some? && Parsed(domain, b, archive).Some?
    ensures Parsed(domain, a, archive).value.0 == Parsed(domain, b, archive).value.0 <==> SamePlan(domain, a, b)
  {
    ActionMeans(a);
    ActionMeans(b);
  }

  /** Every row is in order by itself, and no two interfere. */
  ghost predicate RowsFit(domain: Domain, raws: seq<Raw>, archive: Archive) {
    && (forall i {:trigger RowFits(domain, raws[i], archive)} :: 0 <= i < |raws| ==> RowFits(domain, raws[i], archive))
    && (forall i, j {:trigger Interfere(domain, raws[i], raws[j])} :: 0 <= i < j < |raws| ==>
          !Interfere(domain, raws[i], raws[j]))
  }

  /**
   A package is accepted exactly when every row is in order by itself, no two rows name one plan or bring one file,
   and every other member of the archive is the file of some row.
   */
  ghost predicate PackageFits(domain: Domain, raws: seq<Raw>, archive: Archive) {
    RowsFit(domain, raws, archive)
    && (forall f :: f in archive.members ==> exists i :: 0 <= i < |raws| && Brings(raws[i], f))
  }

  predicate Brings(raw: Raw, f: string) {
    !Deactivates(raw) && raw.filename == f
  }

  lemma CleanFits(domain: Domain, raws: seq<Raw>, archive: Archive)
    requires Clean(ParsedRows(domain, raws, archive), |raws|)
    ensures RowsFit(domain, raws, archive)
  {
    var ps := ParsedRows(domain, raws, archive);
    forall i | 0 <= i < |raws| ensures RowFits(domain, raws[i], archive) {
      assert ps[i].Some?;
      ParsedIff(domain, raws[i], archive);
    }
    forall i, j | 0 <= i < j < |raws| ensures !Interfere(domain, raws[i], raws[j]) {
      assert !Clash(ps[i].value, ps[j].value);
      ClashMeans(domain, raws[i], raws[j], archive);
    }
  }

  lemma FitsClean(domain: Domain, raws: seq<Raw>, archive: Archive)
    requires RowsFit(domain, raws, archive)
    ensures Clean(ParsedRows(domain, raws, archive), |raws|)
  {
    var ps := ParsedRows(domain, raws, archive);
    forall i | 0 <= i < |raws| ensures ps[i].Some? {
      assert RowFits(domain, raws[i], archive);
      ParsedIff(domain, raws[i], archive);
    }
    forall i, j | 0 <= i < j < |raws| ensures !Clash(ps[i].value, ps[j].value) {
      assert RowFits(domain, raws[i], archive) && RowFits(domain, raws[j], archive);
      assert !Interfere(domain, raws[i], raws[j]);
      ClashMeans(domain, raws[i], raws[j], archive);
    }
  }

  lemma AcceptedIffFits(domain: Domain, raws: seq<Raw>, archive: Archive)
    ensures var ps := ParsedRows(domain, raws, archive);
            Clean(ps, |ps|) && AllDeclared(ps, archive) <==> PackageFits(domain, raws, archive)
  {
    var ps := ParsedRows(domain, raws, archive);
    if Clean(ps, |ps|) { CleanFits(domain, raws, archive); }
    if RowsFit(domain, raws, archive) { FitsClean(domain, raws, archive); }
    if Clean(ps, |ps|) {
      forall i, f | 0 <= i < |raws| ensures Declares(ps[i], f) <==> Brings(raws[i], f) {
        ParsedIff(domain, raws[i], archive);
      }
      DeclaredMeans(ps, raws, archive);
    }
  }

  lemma DeclaredMeans(ps: seq<Option<(Identity, Entry)>>, raws: seq<Raw>, archive: Archive)
    requires |ps| == |raws|
    requires forall i, f {:trigger Declares(ps[i], f)} {:trigger Brings(raws[i], f)} :: 0 <= i < |raws| ==>
        (Declares(ps[i], f) <==> Brings(raws[i], f))
    ensures AllDeclared(ps, archive) <==>
            forall f :: f in archive.members ==> exists i :: 0 <= i < |raws| && Brings(raws[i], f)
  {
  }

  /** The loop of `parse_pdf_package`. */
  method GatherRows(domain: Domain, raws: seq<Raw>, archive: Archive) returns (r: Result<Gathered, PackageError>)
    ensures var g := GatherAll(ParsedRows(domain, raws, archive), |raws|);
            (r.Ok? ==> g == Some(r.value)) && (r.Err? ==> g == None)
  {
    ghost var ps := ParsedRows(domain, raws, archive);
    var g := Gathered([], {}, {});
    for i := 0 to |raws|
      invariant GatherAll(ps, i) == Some(g)
    {
      var refusal := RowError(domain, raws[i], archive, g);
      assert ps[i] == Parsed(domain, raws[i], archive);
      if refusal.Some? {
        RefusalSticks(ps, i + 1, |ps|);
        return Err(refusal.value);
      }
      g := Gather(g, Parsed(domain, raws[i], archive)).value;
    }
    r := Ok(g);
  }

  /**
   `parse_pdf_package` from the rows on. A package is accepted exactly when each row is, no two rows clash and every
   member is declared; the entries are then those of the rows, in order.
   */
  method ParsePackage(domain: Domain, raws: seq<Raw>, archive: Archive) returns (r: Result<seq<Entry>, PackageError>)
    ensures var ps := ParsedRows(domain, raws, archive);
            && (r.Ok? <==> Clean(ps, |ps|) && AllDeclared(ps, archive))
            && (r.Ok? ==> EntriesOf(ps, r.value))
    ensures r.Ok? <==> PackageFits(domain, raws, archive)
    ensures r.Ok? ==> |r.value| == |raws| && forall i :: 0 <= i < |raws| ==> ReadsAs(domain, raws[i], r.value[i])
  {
    ghost var ps := ParsedRows(domain, raws, archive);
    GathersExactlyClean(ps, |ps|);
    AcceptedIffFits(domain, raws, archive);
    forall i | 0 <= i < |raws| && ps[i].Some? ensures ReadsAs(domain, raws[i], ps[i].value.1) {
      ParsedIff(domain, raws[i], archive);
    }
    var gathered := GatherRows(domain, raws, archive);
    if gathered.Err? { return Err(gathered.error); }
    DeclaredIff(ps, archive, gathered.value);
    GatheredEntries(ps, gathered.value);
    if !(archive.members.Keys <= gathered.value.declared) { return Err(UndeclaredMember); }
    r := Ok(gathered.value.entries);
  }

  /** The entries of the rows, in order. */
  ghost predicate EntriesOf(ps: seq<Option<(Identity, Entry)>>, entries: seq<Entry>) {
    |entries| == |ps| && forall i {:trigger entries[i]} :: 0 <= i < |ps| ==> ps[i].Some? && entries[i] == ps[i].value.1
  }

  lemma GatheredEntries(ps: seq<Option<(Identity, Entry)>>, g: Gathered)
    requires GatherAll(ps, |ps|) == Some(g)
    ensures EntriesOf(ps, g.entries)
  {
    GatheredFromRows(ps, |ps|);
  }

  /** The first check that refuses the row, in the order in which they are made. */
  function RowError(domain: Domain, raw: Raw, archive: Archive, g: Gathered): (e: Option<PackageError>)
    ensures e.None? <==> Gather(g, Parsed(domain, raw, archive)).Some?
  {
    var action := ActionOf(raw);
    if action.None? then Some(InvalidAction)
    else
      var address := AddressOf(domain, raw, action.value);
      if address.None? then Some(FieldRequired)
      else
        var identity := IdentityOf(domain, raw, address.value);
        if identity.None? then Some(IdentityRequired)
        else if identity.value in g.seen then Some(DuplicateIdentity)
        else if action.value.Upsert? && ValidFilename(raw.filename) && raw.filename in g.declared
            then Some(DuplicateFile)
        else if FileError(raw, action.value, archive).Some? then FileError(raw, action.value, archive)
        else if raw.coordinates.None? then Some(InvalidCoordinate)
        else if !FieldsOk(domain, raw, action.value) then Some(FieldRequired)
        else None
  }

  /** Each refusal has its reason. */
  lemma RefusalMeans(domain: Domain, raw: Raw, archive: Archive, g: Gathered)
    ensures match RowError(domain, raw, archive, g)
            case None => RowFits(domain, raw, archive)
            case Some(InvalidAction) => raw.action !in {"", "upsert", "deactivate"}
            case Some(FieldRequired) =>
              && domain.KlgvPlans? && !Deactivates(raw)
              && !(Given(raw.address) && Given(raw.name) && Given(raw.postal) && Given(raw.city))
            case Some(IdentityRequired) => domain.FirePlans? && Strip(raw.external) == "" && Strip(raw.address) == ""
            case Some(DuplicateIdentity) => g.seen != {}
            case Some(DuplicateFile) => !Deactivates(raw) && raw.filename in g.declared
            case Some(UnexpectedFile) => Deactivates(raw) && raw.filename != ""
            case Some(InvalidFilename) =>
              && !Deactivates(raw)
              && (|raw.filename| < 4 || raw.filename[|raw.filename| - 4..] != ".pdf" || '/' in raw.filename)
            case Some(MissingFile) => !Deactivates(raw) && raw.filename !in archive.members
            case Some(FileTooLarge) =>
              !Deactivates(raw) && raw.filename in archive.members && archive.members[raw.filename] > archive.limit
            case Some(InvalidCoordinate) => raw.coordinates.None?
            case Some(UndeclaredMember) => false
  {
    ActionMeans(raw);
    ParsedIff(domain, raw, archive);
  }

  lemma {:induction false} RefusalSticks(ps: seq<Option<(Identity, Entry)>>, m: nat, n: nat)
    requires m <= n <= |ps| && GatherAll(ps, m).None?
    ensures GatherAll(ps, n).None?
    decreases n
  {
    if m < n { RefusalSticks(ps, m, n - 1); }
  }

  // ---- from package identities to import identities -------------------------------------------------

  /** The identity key that the import uses for an entry. */
  function EntryKey(domain: Domain, e: Entry): Key {
    IdentityKey(domain, e.external, e.title, e.address)
  }

  /** A KLGV deactivation that names no external identifier: its name and address are blanked on the way in. */
  predicate Nameless(domain: Domain, e: Entry) {
    domain.KlgvPlans? && e.action.Deactivate? && e.external == ""
  }

  /** The import key of an entry that is not nameless is the package identity under another name. */
  function KeyOfIdentity(x: Identity): Key {
    match x
    case ByExternal(id) => External(id)
    case ByAddress(address) => AtAddress(address)
    case ByNameAndAddress(joined) => NameAtAddress(joined)
  }

  lemma KeyFollowsIdentity(domain: Domain, raw: Raw, archive: Archive)
    requires Parsed(domain, raw, archive).Some?
    ensures var (x, e) := Parsed(domain, raw, archive).value;
            && (!Nameless(domain, e) ==> EntryKey(domain, e) == KeyOfIdentity(x))
            && (Nameless(domain, e) ==> EntryKey(domain, e) == NameAtAddress(['\0']))
            && (EntryKey(domain, e) == NameAtAddress(['\0']) ==> Nameless(domain, e))
  {
    StripTrims(raw.external);
    StripTrims(raw.name);
    StripTrims(raw.address);
    StripTrims(Strip(raw.external));
    StripTrims(Strip(raw.name));
    StripTrims(Strip(raw.address));
    StripTrims("");
    var (x, e) := Parsed(domain, raw, archive).value;
    if domain.KlgvPlans? && e.action.Upsert? && e.external == "" {
      assert Strip(e.title) == e.title && Strip(e.address) == e.address && e.title != "";
      assert |e.title + ['\0'] + e.address| > 1;
    }
  }

  /**
   In an accepted package two rows have one import identity exactly when both are KLGV deactivations without an
   external identifier. So identities are pairwise distinct exactly when there is at most one of those, and always for
   fire plans.
   */
  lemma PackageKeysDistinct(domain: Domain, raws: seq<Raw>, archive: Archive)
    requires Clean(ParsedRows(domain, raws, archive), |raws|)
    ensures var ps := ParsedRows(domain, raws, archive);
            && (forall i, j :: 0 <= i < j < |ps| ==>
                  (EntryKey(domain, ps[i].value.1) == EntryKey(domain, ps[j].value.1) <==>
                   Nameless(domain, ps[i].value.1) && Nameless(domain, ps[j].value.1)))
            && (domain.FirePlans? ==>
                  forall i, j :: 0 <= i < j < |ps| ==>
                      EntryKey(domain, ps[i].value.1) != EntryKey(domain, ps[j].value.1))
  {
    var ps := ParsedRows(domain, raws, archive);
    forall i, j | 0 <= i < j < |ps|
      ensures EntryKey(domain, ps[i].value.1) == EntryKey(domain, ps[j].value.1) <==>
              Nameless(domain, ps[i].value.1) && Nameless(domain, ps[j].value.1)
    {
      assert ps[i] == Parsed(domain, raws[i], archive) && ps[j] == Parsed(domain, raws[j], archive);
      assert !Clash(ps[i].value, ps[j].value);
      TwoKeys(domain, raws[i], raws[j], archive);
    }
  }

  lemma TwoKeys(domain: Domain, a: Raw, b: Raw, archive: Archive)
    requires Parsed(domain, a, archive).Some? && Parsed(domain, b, archive).Some?
    requires Parsed(domain, a, archive).value.0 != Parsed(domain, b, archive).value.0
    ensures var (x, d), (y, e) := Parsed(domain, a, archive).value, Parsed(domain, b, archive).value;
            EntryKey(domain, d) == EntryKey(domain, e) <==> Nameless(domain, d) && Nameless(domain, e)
  {
    KeyFollowsIdentity(domain, a, archive);
    KeyFollowsIdentity(domain, b, archive);
  }

  /** The collision, concretely: two KLGV plans named for deactivation are accepted but become one import identity. */
  lemma NamedDeactivationsCollide() returns (raws: seq<Raw>, archive: Archive)
    ensures |raws| == 2 && Clean(ParsedRows(KlgvPlans, raws, archive), 2)
    ensures var ps := ParsedRows(KlgvPlans, raws, archive);
            ps[0].value.0 != ps[1].value.0 && EntryKey(KlgvPlans, ps[0].value.1) == EntryKey(KlgvPlans, ps[1].value.1)
  {
    var a := Raw("deactivate", "", "A", "", "", "", "", Some((None, None)));
    var b := a.(name := "B");
    raws, archive := [a, b], Archive(map[], 0);
    assert "deactivate" != "upsert" by { assert |"deactivate"| != |"upsert"|; }
    assert Strip("A") == "A" && Strip("B") == "B" && Strip("") == "";
    var x, y := "A" + ['\0'] + "", "B" + ['\0'] + "";
    assert x[0] != y[0];
    assert Parsed(KlgvPlans, a, archive) == Some((ByNameAndAddress(x), Entry(Deactivate, "", "", "", "", "", "")));
    assert Parsed(KlgvPlans, b, archive) == Some((ByNameAndAddress(y), Entry(Deactivate, "", "", "", "", "", "")));
    var ps := ParsedRows(KlgvPlans, raws, archive);
    assert ps[0] == Parsed(KlgvPlans, a, archive) && ps[1] == Parsed(KlgvPlans, b, archive);
  }

  /** Nor can such a row do anything: it matches no plan that has a name, whatever a query lists last. */
  lemma NamelessNeverMatches(e: Entry, pick: Pick, docs: Docs, key: Key)
    requires Nameless(KlgvPlans, e) && e.title == "" && e.address == "" && key == EntryKey(KlgvPlans, e)
    requires forall x :: x in docs ==> Strip(docs[x].name) != ""
    ensures Find(KlgvPlans, pick, docs, key).None?
  {
    StripTrims("");
    assert key == NameAtAddress(['\0']);
    forall x | x in docs ensures DocKey(KlgvPlans, docs[x]) != key { NamedKeyIsLonger(docs[x]); }
    assert Holders(KlgvPlans, docs, key) == {};
  }

  lemma NamedKeyIsLonger(doc: Doc)
    requires Strip(doc.name) != ""
    ensures DocKey(KlgvPlans, doc) != NameAtAddress(['\0'])
  {
    assert |Strip(doc.name) + ['\0'] + Strip(doc.address)| >= 2;
  }

  // ---- from packages to batches ---------------------------------------------------------------------

  /** The row staged for an entry; what its PDF adds does not matter here. */
  predicate RowFrom(e: Entry, row: Row) {
    row.action == e.action && row.external == e.external && row.title == e.title && row.address == e.address
  }

  /** The rows were staged for different rows of the package, in whatever number; rejected PDFs leave none. */
  ghost predicate StagedFrom(ps: seq<Option<(Identity, Entry)>>, rows: seq<Row>, source: seq<nat>)
    requires Clean(ps, |ps|)
  {
    && |source| == |rows|
    && (forall k {:trigger source[k]} :: 0 <= k < |rows| ==>
        source[k] < |ps| && RowFrom(ps[source[k]].value.1, rows[k]))
    && (forall k, l :: 0 <= k < l < |rows| ==> source[k] != source[l])
  }

  /** Plans that can be found by name have one. */
  ghost predicate PlansNamed(domain: Domain, docs: Docs) {
    domain.KlgvPlans? ==> forall x :: x in docs ==> Strip(docs[x].name) != ""
  }

  /** The rows staged for an accepted package are apart, as previewing and applying them relies on. */
  lemma PackageIsApart(
    domain: Domain, raws: seq<Raw>, archive: Archive, rows: seq<Row>, source: seq<nat>, docs: Docs)
    requires Clean(ParsedRows(domain, raws, archive), |raws|) && PlansNamed(domain, docs)
    requires StagedFrom(ParsedRows(domain, raws, archive), rows, source)
    ensures PackageApart(domain, docs, rows)
  {
    var ps := ParsedRows(domain, raws, archive);
    PackageKeysDistinct(domain, raws, archive);
    forall k, l | 0 <= k < |rows| && 0 <= l < |rows| && k != l && RowKey(domain, rows[k]) == RowKey(domain, rows[l])
      ensures rows[k].action.Deactivate? && Holders(domain, docs, RowKey(domain, rows[k])) == {}
    {
      var a, b := source[k], source[l];
      assert a != b by { if k < l { } else { assert l < k; } }
      assert EntryKey(domain, ps[a].value.1) == EntryKey(domain, ps[b].value.1);
      assert Nameless(domain, ps[a].value.1) by { if a < b { } else { assert b < a; } }
      assert ps[a] == Parsed(domain, raws[a], archive);
      KeyFollowsIdentity(domain, raws[a], archive);
      NamelessKeyUnheld(docs);
    }
  }

  lemma NamelessKeyUnheld(docs: Docs)
    requires PlansNamed(KlgvPlans, docs)
    ensures Holders(KlgvPlans, docs, NameAtAddress(['\0'])) == {}
  {
    forall x | x in docs ensures DocKey(KlgvPlans, docs[x]) != NameAtAddress(['\0']) { NamedKeyIsLonger(docs[x]); }
  }
}
