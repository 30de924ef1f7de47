/**
 The persistent state of the file libraries and, for every mutation, what it does to that state.
 Each operation stands for one committed transaction: it yields a new store or an error that changes nothing.
 */
module FileLibrary {
  import opened Common
  import opened LibraryTree

  /** Deployment settings; `upper` and `lower` are the database's case foldings. */
  datatype Settings = Settings(
    upper: string -> string, lower: string -> string,
    maxFileBytes: nat, maxQuotaBytes: nat, defaultDepartmentBytes: nat, defaultStationBytes: nat)

  datatype Library = Library(dept: nat, station: Option<nat>, name: string, revision: nat, usage: int)
  datatype Content = Content(lib: nat, size: nat, sha: string)
  datatype Policy = Policy(departmentBytes: nat, stationBytes: nat)

  /** Accepted PDFs live under `file-libraries/<library>/<content>.pdf`. */
  datatype StorageKey = StorageKey(lib: nat, content: nat)

  datatype FolderRecord = FolderRecord(id: nat, name: string, parent: Option<nat>)
  datatype DocumentRecord =
    DocumentRecord(id: nat, name: string, folder: Option<nat>, size: nat, sha: string, content: nat)
  datatype Snapshot = Snapshot(
    lib: nat, name: string, dept: nat, station: Option<nat>, revision: nat,
    folders: seq<FolderRecord>, documents: seq<DocumentRecord>)

  /**
   `files` maps each stored file to its modification time, `unlinking` holds the files whose removal awaits the
   commit of a content collection, `issued` the content identities ever drawn, `frozen` the source snapshots of the
   publications being built, `pins` their content references.
   */
  datatype Store = Store(
    libs: map<nat, Library>, entries: Entries, contents: map<nat, Content>, policies: map<nat, Policy>,
    files: map<StorageKey, int>, unlinking: set<StorageKey>, issued: set<nat>,
    frozen: map<nat, Snapshot>, pins: map<(nat, nat), nat>)

  const Empty := Store(map[], map[], map[], map[], map[], {}, {}, map[], map[])

  datatype LibraryError =
    | Unavailable | NotAFolder | NotADocument | BadName | NameTaken | FolderCycle | TooDeep
    | FileTooLarge | QuotaExceeded | BadQuota | IdentityTaken

  // ---- sizes ------------------------------------------------------------------------------------

  function SizeOf(es: Entries, cs: map<nat, Content>, x: nat): nat {
    if x in es && es[x].content.Some? && es[x].content.value in cs then cs[es[x].content.value].size else 0
  }

  ghost function TotalSize(es: Entries, cs: map<nat, Content>, ids: set<nat>): nat {
    if ids == {} then 0 else var x :| x in ids; SizeOf(es, cs, x) + TotalSize(es, cs, ids - {x})
  }

  function Members(es: Entries, lib: nat): set<nat> {
    set x | x in es && es[x].lib == lib
  }

  lemma {:induction false} TotalRemove(es: Entries, cs: map<nat, Content>, ids: set<nat>, y: nat)
    requires y in ids
    ensures TotalSize(es, cs, ids) == SizeOf(es, cs, y) + TotalSize(es, cs, ids - {y})
    decreases |ids|
  {
    var x :| x in ids && TotalSize(es, cs, ids) == SizeOf(es, cs, x) + TotalSize(es, cs, ids - {x});
    if x != y {
      TotalRemove(es, cs, ids - {x}, y);
      TotalRemove(es, cs, ids - {y}, x);
      assert ids - {x} - {y} == ids - {y} - {x};
    }
  }

  lemma {:induction false} TotalSplit(es: Entries, cs: map<nat, Content>, a: set<nat>, b: set<nat>)
    requires a !! b
    ensures TotalSize(es, cs, a + b) == TotalSize(es, cs, a) + TotalSize(es, cs, b)
    decreases |a|
  {
    if a == {} {
      assert a + b == b;
    } else {
      var x :| x in a;
      TotalRemove(es, cs, a, x);
      TotalRemove(es, cs, a + b, x);
      assert a + b - {x} == (a - {x}) + b;
      TotalSplit(es, cs, a - {x}, b);
    }
  }

  lemma {:induction false} TotalFrame(
      es: Entries, cs: map<nat, Content>, es': Entries, cs': map<nat, Content>, ids: set<nat>)
    requires forall x :: x in ids ==> SizeOf(es, cs, x) == SizeOf(es', cs', x)
    ensures TotalSize(es, cs, ids) == TotalSize(es', cs', ids)
    decreases |ids|
  {
    if ids != {} {
      var x :| x in ids;
      TotalRemove(es, cs, ids, x);
      TotalRemove(es', cs', ids, x);
      TotalFrame(es, cs, es', cs', ids - {x});
    }
  }

  // ---- the invariant ------------------------------------------------------------------------------

  ghost predicate TreeOk(es: Entries, cfg: Settings) {
    Forest(es) && NamesDistinct(es, cfg.upper) && NamesDistinct(es, cfg.lower)
  }

  /** Names are stored as `name_value` returns them, without surrounding space. */
  ghost predicate NamesTrimmed(es: Entries) {
    forall x {:trigger es[x].name} :: x in es ==> Trimmed(es[x].name)
  }

  /** Foreign keys: entries belong to libraries, documents and pins reference existing content. */
  ghost predicate ReferencesOk(s: Store) {
    && (forall x :: x in s.entries ==> s.entries[x].lib in s.libs)
    && (forall x :: x in s.entries && s.entries[x].content.Some? ==>
          var c := s.entries[x].content.value; c in s.contents && s.contents[c].lib == s.entries[x].lib)
    && (forall k :: k in s.pins ==> s.pins[k] in s.contents && k.0 in s.frozen)
  }

  /** The cached counter is the sum of the library's document sizes. */
  ghost predicate UsageOk(s: Store) {
    forall l :: l in s.libs ==> s.libs[l].usage == TotalSize(s.entries, s.contents, Members(s.entries, l))
  }

  /** Every content row has its stored file, and no file awaiting removal belongs to a row. */
  ghost predicate StorageOk(s: Store) {
    && (forall c :: c in s.contents ==> c in s.issued && StorageKey(s.contents[c].lib, c) in s.files)
    && (forall k :: k in s.unlinking ==> k.content in s.issued && k.content !in s.contents)
  }

  ghost predicate Valid(s: Store, cfg: Settings) {
    TreeOk(s.entries, cfg) && NamesTrimmed(s.entries) && ReferencesOk(s) && UsageOk(s) && StorageOk(s)
  }

  lemma EmptyIsValid(cfg: Settings)
    ensures Valid(Empty, cfg)
  {
  }

  // ---- names and places ---------------------------------------------------------------------------

  predicate EndsInPdf(s: string) {
    && |s| >= 4
    && s[|s| - 4] == '.'
    && s[|s| - 3] in {'p', 'P'} && s[|s| - 2] in {'d', 'D'} && s[|s| - 1] in {'f', 'F'}
  }

  /** `name_value`: the trimmed name, if it is acceptable. */
  function NameValue(raw: string, pdf: bool): Option<string> {
    var name := Strip(raw);
    if name == "" || |name| > 255 || name in {".", ".."}
       || (exists c :: c in name && (c as int < 32 || c == '/' || c == '\\'))
       || (pdf && !EndsInPdf(name))
    then None else Some(name)
  }

  predicate SiblingClash(
      es: Entries, fold: string -> string, lib: nat, parent: Option<nat>, name: string, except: Option<nat>) {
    exists x :: x in es && Some(x) != except && es[x].lib == lib && es[x].parent == parent
        && fold(es[x].name) == fold(name)
  }

  /** Number of folders above a place. */
  function Depth(es: Entries, at: Option<nat>, bound: nat): nat
    decreases bound
  {
    if bound == 0 || at.None? || at.value !in es then 0 else 1 + Depth(es, es[at.value].parent, bound - 1)
  }

  lemma {:induction false} DepthReachesRoot(es: Entries, at: Option<nat>, bound: nat)
    requires Up(es, at, bound) == None && Closed(es) && (at.Some? ==> at.value in es)
    ensures Depth(es, at, bound) <= bound && Up(es, at, Depth(es, at, bound)) == None
    ensures forall j: nat :: j < Depth(es, at, bound) ==> Up(es, at, j).Some?
    decreases bound
  {
    if bound > 0 && at.Some? {
      assert ParentOk(es, at.value);
      var p := es[at.value].parent;
      DepthReachesRoot(es, p, bound - 1);
      forall j: nat | j < Depth(es, at, bound) ensures Up(es, at, j).Some? {
        if j > 0 { assert Up(es, at, j) == Up(es, p, j - 1); }
      }
    }
  }

  function PlaceError(es: Entries, lib: nat, parent: Option<nat>): Option<LibraryError> {
    if parent.None? then None
    else if parent.value !in es || es[parent.value].lib != lib then Some(Unavailable)
    else if !es[parent.value].IsFolder() then Some(NotAFolder)
    else None
  }

  /** Whether the entry (or a new one) may sit below `depth` folders. */
  ghost predicate Fits(es: Entries, entry: Option<nat>, folder: bool, depth: nat) {
    if folder then
      if entry.Some? then SubtreeFits(es, entry.value, depth) else depth + 1 <= MAX_FOLDER_DEPTH
    else depth <= MAX_FOLDER_DEPTH
  }

  /** What `validate_location` decides, stated on the tree. */
  ghost function LocationError(es: Entries, cfg: Settings, lib: nat, name: string, parent: Option<nat>,
                               entry: Option<nat>, folder: bool): Option<LibraryError> {
    if SiblingClash(es, cfg.upper, lib, parent, name, entry) then Some(NameTaken)
    else if entry.Some? && Below(es, parent, entry.value) then Some(FolderCycle)
    else if !Fits(es, entry, folder, Depth(es, parent, MAX_FOLDER_DEPTH)) then Some(TooDeep)
    else None
  }

  function Quota(s: Store, cfg: Settings, lib: nat): nat
    requires lib in s.libs
  {
    var row := s.libs[lib];
    var policy := if row.dept in s.policies then s.policies[row.dept]
                  else Policy(cfg.defaultDepartmentBytes, cfg.defaultStationBytes);
    if row.station.None? then policy.departmentBytes else policy.stationBytes
  }

  // ---- operations -------------------------------------------------------------------------------

  function Bumped(s: Store, lib: nat, usage: int): map<nat, Library>
    requires lib in s.libs
  {
    s.libs[lib := s.libs[lib].(revision := s.libs[lib].revision + 1, usage := usage)]
  }

  ghost function CreateFolder(s: Store, cfg: Settings, lib: nat, id: nat, raw: string, parent: Option<nat>)
    : Result<Store, LibraryError>
  {
    var name := NameValue(raw, false);
    if lib !in s.libs then Err(Unavailable)
    else if name.None? then Err(BadName)
    else if PlaceError(s.entries, lib, parent).Some? then Err(PlaceError(s.entries, lib, parent).value)
    else
      var bad := LocationError(s.entries, cfg, lib, name.value, parent, None, true);
      if bad.Some? then Err(bad.value)
      else if id in s.entries then Err(IdentityTaken)
      else if SiblingClash(s.entries, cfg.lower, lib, parent, name.value, None) then Err(NameTaken)
      else Ok(s.(entries := s.entries[id := Entry(lib, parent, name.value, None)],
          libs := Bumped(s, lib, s.libs[lib].usage)))
  }

  /** `edit_entry`: rename when a name is given, move when `move` is set. */
  ghost function Edit(s: Store, cfg: Settings, lib: nat, id: nat, raw: Option<string>, move: bool, target: Option<nat>)
    : Result<Store, LibraryError>
  {
    if lib !in s.libs || id !in s.entries || s.entries[id].lib != lib then Err(Unavailable)
    else
      var e := s.entries[id];
      var name := if raw.Some? then NameValue(raw.value, !e.IsFolder()) else Some(e.name);
      var parent := if move then target else e.parent;
      if name.None? then Err(BadName)
      else if move && PlaceError(s.entries, lib, target).Some? then Err(PlaceError(s.entries, lib, target).value)
      else
        var bad := LocationError(s.entries, cfg, lib, name.value, parent, Some(id), e.IsFolder());
        if bad.Some? then Err(bad.value)
        else if name.value == e.name && parent == e.parent then Ok(s)
        else if SiblingClash(s.entries, cfg.lower, lib, parent, name.value, Some(id)) then Err(NameTaken)
        else Ok(s.(entries := s.entries[id := e.(name := name.value, parent := parent)],
                   libs := Bumped(s, lib, s.libs[lib].usage)))
  }

  /** `delete_entry`: the entry goes with its whole subtree, and the counter with their sizes. */
  ghost function Delete(s: Store, lib: nat, id: nat): Result<Store, LibraryError> {
    if lib !in s.libs || id !in s.entries || s.entries[id].lib != lib then Err(Unavailable)
    else
      var gone := Subtree(s.entries, id);
      Ok(s.(entries := s.entries - gone,
            libs := Bumped(s, lib, s.libs[lib].usage - TotalSize(s.entries, s.contents, gone))))
  }

  /** Shared by upload and replacement: the bytes are accepted unless they push usage up and over the quota. */
  predicate QuotaAllows(s: Store, cfg: Settings, lib: nat, usage: int)
    requires lib in s.libs
  {
    usage <= Quota(s, cfg, lib) || usage <= s.libs[lib].usage
  }

  function WithContent(s: Store, lib: nat, content: nat, size: nat, sha: string, now: int): Store {
    s.(contents := s.contents[content := Content(lib, size, sha)],
       files := s.files[StorageKey(lib, content) := now],
       issued := s.issued + {content})
  }

  ghost function Upload(s: Store, cfg: Settings, lib: nat, id: nat, content: nat, raw: string, parent: Option<nat>,
                        size: nat, sha: string, now: int): Result<Store, LibraryError>
  {
    var name := NameValue(raw, true);
    if lib !in s.libs then Err(Unavailable)
    else if name.None? then Err(BadName)
    else if size > cfg.maxFileBytes then Err(FileTooLarge)
    else if PlaceError(s.entries, lib, parent).Some? then Err(PlaceError(s.entries, lib, parent).value)
    else
      var bad := LocationError(s.entries, cfg, lib, name.value, parent, None, false);
      var usage := s.libs[lib].usage + size;
      if bad.Some? then Err(bad.value)
      else if !QuotaAllows(s, cfg, lib, usage) then Err(QuotaExceeded)
      else if content in s.issued || id in s.entries then Err(IdentityTaken)
      else if SiblingClash(s.entries, cfg.lower, lib, parent, name.value, None) then Err(NameTaken)
      else Ok(WithContent(s, lib, content, size, sha, now).(
                entries := s.entries[id := Entry(lib, parent, name.value, Some(content))],
                libs := Bumped(s, lib, usage)))
  }

  ghost function Replace(s: Store, cfg: Settings, lib: nat, id: nat, content: nat, size: nat, sha: string, now: int)
    : Result<Store, LibraryError>
  {
    if lib !in s.libs then Err(Unavailable)
    else if size > cfg.maxFileBytes then Err(FileTooLarge)
    else if id !in s.entries || s.entries[id].lib != lib then Err(Unavailable)
    else if s.entries[id].IsFolder() then Err(NotADocument)
    else
      var e := s.entries[id];
      var bad := LocationError(s.entries, cfg, lib, e.name, e.parent, Some(id), false);
      var usage := s.libs[lib].usage - SizeOf(s.entries, s.contents, id) + size;
      if bad.Some? then Err(bad.value)
      else if !QuotaAllows(s, cfg, lib, usage) then Err(QuotaExceeded)
      else if content in s.issued then Err(IdentityTaken)
      else Ok(WithContent(s, lib, content, size, sha, now).(
                entries := s.entries[id := e.(content := Some(content))],
                libs := Bumped(s, lib, usage)))
  }

  function RenameLibrary(s: Store, lib: nat, raw: string): Result<Store, LibraryError> {
    var name := NameValue(raw, false);
    if lib !in s.libs then Err(Unavailable)
    else if name.None? then Err(BadName)
    else if s.libs[lib].name == name.value then Ok(s)
    else
      var row := s.libs[lib];
      Ok(s.(libs := s.libs[lib := row.(name := name.value, revision := row.revision + 1)]))
  }

  function SetQuotas(s: Store, cfg: Settings, dept: nat, departmentBytes: Option<int>, stationBytes: Option<int>)
    : Result<Store, LibraryError>
  {
    if (departmentBytes.Some? && !(0 <= departmentBytes.value <= cfg.maxQuotaBytes))
       || (stationBytes.Some? && !(0 <= stationBytes.value <= cfg.maxQuotaBytes)) then Err(BadQuota)
    else
      var policy := if dept in s.policies then s.policies[dept]
                    else Policy(cfg.defaultDepartmentBytes, cfg.defaultStationBytes);
      Ok(s.(policies := s.policies[dept := Policy(
        if departmentBytes.Some? then departmentBytes.value else policy.departmentBytes,
        if stationBytes.Some? then stationBytes.value else policy.stationBytes)]))
  }

  /** `collect_content`: a row that any entry or pin still references is protected and stays. */
  predicate Referenced(s: Store, content: nat) {
    || (exists x :: x in s.entries && s.entries[x].content == Some(content))
    || (exists k :: k in s.pins && s.pins[k] == content)
  }

  function Collect(s: Store, content: nat): Result<Store, LibraryError> {
    if content !in s.contents then Err(Unavailable)
    else if Referenced(s, content) then Ok(s)
    else Ok(s.(contents := s.contents - {content},
               unlinking := s.unlinking + {StorageKey(s.contents[content].lib, content)}))
  }

  /** The removal that runs after a collection has committed; it may fail and leave an orphan file. */
  function FinishUnlink(s: Store, key: StorageKey, removed: bool): Store {
    if key !in s.unlinking then s
    else s.(unlinking := s.unlinking - {key}, files := if removed then s.files - {key} else s.files)
  }

  predicate HasRow(s: Store, key: StorageKey) {
    key.content in s.contents && s.contents[key.content].lib == key.lib
  }

  /** `reconcile_orphans` removes the files without a content row that are older than the cut-off. */
  function Orphans(s: Store, cutoff: int): set<StorageKey> {
    set k | k in s.files && !HasRow(s, k) && s.files[k] < cutoff
  }

  function Reconcile(s: Store, cutoff: int): Store {
    s.(files := s.files - Orphans(s, cutoff))
  }

  /** A crash between promoting a file and committing its row leaves the file behind. */
  function Stray(s: Store, lib: nat, content: nat, now: int): Store {
    if content in s.issued then s
    else s.(files := s.files[StorageKey(lib, content) := now], issued := s.issued + {content})
  }

  /** Opening a scope creates its library once. */
  function Open(s: Store, lib: nat, dept: nat, station: Option<nat>): Store {
    if lib in s.libs
        || (exists l :: l in s.libs && s.libs[l].station == station && (station.Some? || s.libs[l].dept == dept))
    then s
    else s.(libs := s.libs[lib := Library(dept, station, "Documents", 0, 0)])
  }
}
