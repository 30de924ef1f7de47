/** Arbitrary runs of file-library commands: what holds in every reachable state and along the way. */
module LibraryRuns {
  import opened Common
  import opened LibraryTree
  import opened FileLibrary
  import opened FileLibraryInvariant
  import opened LibraryPublication

  datatype Command =
    | OpenCmd(lib: nat, dept: nat, station: Option<nat>)
    | CreateFolderCmd(lib: nat, id: nat, name: string, parent: Option<nat>)
    | EditCmd(lib: nat, id: nat, rename: Option<string>, move: bool, target: Option<nat>)
    | DeleteCmd(lib: nat, id: nat)
    | UploadCmd(lib: nat, id: nat, content: nat, name: string, parent: Option<nat>, size: nat, sha: string, now: int)
    | ReplaceCmd(lib: nat, id: nat, content: nat, size: nat, sha: string, now: int)
    | RenameCmd(lib: nat, name: string)
    | QuotaCmd(dept: nat, departmentBytes: Option<int>, stationBytes: Option<int>)
    | CollectCmd(content: nat)
    | UnlinkCmd(key: StorageKey, removed: bool)
    | ReconcileCmd(cutoff: int)
    | StrayCmd(lib: nat, content: nat, now: int)
    | PinCmd(pub: nat, lib: nat)
    | ReleaseCmd(pub: nat)

  /** A rejected command leaves the store as it was. */
  function Settle(s: Store, r: Result<Store, LibraryError>): Store {
    if r.Ok? then r.value else s
  }

  ghost function Step(s: Store, cfg: Settings, c: Command): Store
    requires ReferencesOk(s)
  {
    match c
    case OpenCmd(lib, dept, station) => Open(s, lib, dept, station)
    case CreateFolderCmd(lib, id, name, parent) => Settle(s, CreateFolder(s, cfg, lib, id, name, parent))
    case EditCmd(lib, id, rename, move, target) => Settle(s, Edit(s, cfg, lib, id, rename, move, target))
    case DeleteCmd(lib, id) => Settle(s, Delete(s, lib, id))
    case UploadCmd(lib, id, content, name, parent, size, sha, now) =>
      Settle(s, Upload(s, cfg, lib, id, content, name, parent, size, sha, now))
    case ReplaceCmd(lib, id, content, size, sha, now) => Settle(s, Replace(s, cfg, lib, id, content, size, sha, now))
    case RenameCmd(lib, name) => Settle(s, RenameLibrary(s, lib, name))
    case QuotaCmd(dept, departmentBytes, stationBytes) =>
      Settle(s, SetQuotas(s, cfg, dept, departmentBytes, stationBytes))
    case CollectCmd(content) => Settle(s, Collect(s, content))
    case UnlinkCmd(key, removed) => FinishUnlink(s, key, removed)
    case ReconcileCmd(cutoff) => Reconcile(s, cutoff)
    case StrayCmd(lib, content, now) => Stray(s, lib, content, now)
    case PinCmd(pub, lib) => Pin(s, pub, lib)
    case ReleaseCmd(pub) => Release(s, pub)
  }

  lemma StepKeepsValid(s: Store, cfg: Settings, c: Command)
    requires Valid(s, cfg)
    ensures Valid(Step(s, cfg, c), cfg)
  {
    match c
    case OpenCmd(lib, dept, station) => OpenKeepsValid(s, cfg, lib, dept, station);
    case CreateFolderCmd(lib, id, name, parent) => CreateFolderKeepsValid(s, cfg, lib, id, name, parent);
    case EditCmd(lib, id, rename, move, target) => EditKeepsValid(s, cfg, lib, id, rename, move, target);
    case DeleteCmd(lib, id) => DeleteKeepsValid(s, cfg, lib, id);
    case UploadCmd(lib, id, content, name, parent, size, sha, now) =>
      UploadKeepsValid(s, cfg, lib, id, content, name, parent, size, sha, now);
    case ReplaceCmd(lib, id, content, size, sha, now) => ReplaceKeepsValid(s, cfg, lib, id, content, size, sha, now);
    case CollectCmd(content) => CollectKeepsValid(s, cfg, content);
    case PinCmd(pub, lib) => PinKeepsValid(s, cfg, pub, lib);
    case RenameCmd(lib, name) => RenameKeepsValid(s, cfg, lib, name);
    case UnlinkCmd(key, removed) => UnlinkKeepsValid(s, cfg, key, removed);
    case ReconcileCmd(cutoff) => ReconcileKeepsValid(s, cfg, cutoff);
    case StrayCmd(lib, content, now) => StrayKeepsValid(s, cfg, lib, content, now);
    case QuotaCmd(_, _, _) =>
    case ReleaseCmd(pub) => ReleaseKeepsValid(s, cfg, pub);
  }

  lemma RenameKeepsValid(s: Store, cfg: Settings, lib: nat, name: string)
    requires Valid(s, cfg)
    ensures Valid(Settle(s, RenameLibrary(s, lib, name)), cfg)
  {
  }

  lemma UnlinkKeepsValid(s: Store, cfg: Settings, key: StorageKey, removed: bool)
    requires Valid(s, cfg)
    ensures Valid(FinishUnlink(s, key, removed), cfg)
  {
  }

  lemma ReconcileKeepsValid(s: Store, cfg: Settings, cutoff: int)
    requires Valid(s, cfg)
    ensures Valid(Reconcile(s, cutoff), cfg)
  {
  }

  lemma StrayKeepsValid(s: Store, cfg: Settings, lib: nat, content: nat, now: int)
    requires Valid(s, cfg)
    ensures Valid(Stray(s, lib, content, now), cfg)
  {
  }

  lemma ReleaseKeepsValid(s: Store, cfg: Settings, pub: nat)
    requires Valid(s, cfg)
    ensures Valid(Release(s, pub), cfg)
  {
  }

  ghost function Run(s: Store, cfg: Settings, cs: seq<Command>): (s': Store)
    requires Valid(s, cfg)
    ensures Valid(s', cfg)
    decreases |cs|
  {
    if cs == [] then s
    else
      StepKeepsValid(s, cfg, cs[0]);
      Run(Step(s, cfg, cs[0]), cfg, cs[1..])
  }

  // ---- what tree commands leave alone ----------------------------------------------------------------

  predicate IsTreeCommand(c: Command) {
    c.CreateFolderCmd? || c.EditCmd? || c.DeleteCmd? || c.UploadCmd? || c.ReplaceCmd? || c.RenameCmd?
  }

  /** Edits keep pins and snapshots, keep every content row, and keep the set of libraries. */
  ghost predicate TreeFrame(s: Store, s': Store) {
    s'.frozen == s.frozen && s'.pins == s.pins && s'.libs.Keys == s.libs.Keys && ContentsGrow(s, s')
  }

  lemma CreateFolderFrame(s: Store, cfg: Settings, lib: nat, id: nat, name: string, parent: Option<nat>)
    ensures TreeFrame(s, Settle(s, CreateFolder(s, cfg, lib, id, name, parent)))
  {
  }

  lemma EditFrame(s: Store, cfg: Settings, lib: nat, id: nat, rename: Option<string>, move: bool, target: Option<nat>)
    ensures TreeFrame(s, Settle(s, Edit(s, cfg, lib, id, rename, move, target)))
  {
  }

  lemma UploadFrame(
      s: Store, cfg: Settings, lib: nat, id: nat, content: nat, name: string, parent: Option<nat>, size: nat,
      sha: string, now: int)
    requires StorageOk(s)
    ensures TreeFrame(s, Settle(s, Upload(s, cfg, lib, id, content, name, parent, size, sha, now)))
  {
  }

  lemma ReplaceFrame(s: Store, cfg: Settings, lib: nat, id: nat, content: nat, size: nat, sha: string, now: int)
    requires StorageOk(s)
    ensures TreeFrame(s, Settle(s, Replace(s, cfg, lib, id, content, size, sha, now)))
  {
  }

  lemma TreeCommandFrame(s: Store, cfg: Settings, c: Command)
    requires ReferencesOk(s) && StorageOk(s) && IsTreeCommand(c)
    ensures TreeFrame(s, Step(s, cfg, c))
  {
    match c
    case CreateFolderCmd(lib, id, name, parent) => CreateFolderFrame(s, cfg, lib, id, name, parent);
    case EditCmd(lib, id, rename, move, target) => EditFrame(s, cfg, lib, id, rename, move, target);
    case UploadCmd(lib, id, content, name, parent, size, sha, now) =>
      UploadFrame(s, cfg, lib, id, content, name, parent, size, sha, now);
    case ReplaceCmd(lib, id, content, size, sha, now) => ReplaceFrame(s, cfg, lib, id, content, size, sha, now);
    case _ =>
  }

  // ---- the tree and the counter ---------------------------------------------------------------------

  /**
   In every state reached from the empty store: parents are folders of the same library, nothing is its own
   ancestor, folders lie at most five deep and documents under at most five folders, siblings have different names
   under both case foldings, the usage counter is the (non-negative) sum of the document sizes, and every document has
   its content row and every row its file.
   */
  lemma ReachableLibrariesAreForests(cfg: Settings, cs: seq<Command>)
    ensures Valid(Empty, cfg)
    ensures var s := Run(Empty, cfg, cs);
            && (forall x :: x in s.entries && s.entries[x].parent.Some? ==>
                  var p := s.entries[x].parent.value;
                  p in s.entries && s.entries[p].content.None? && s.entries[p].lib == s.entries[x].lib)
            && (forall x, k: nat :: x in s.entries && k > 0 ==> Up(s.entries, Some(x), k) != Some(x))
            && (forall x :: x in s.entries ==>
                  Up(s.entries, Some(x), if s.entries[x].content.None? then 5 else 6) == None)
            && NamesDistinct(s.entries, cfg.upper) && NamesDistinct(s.entries, cfg.lower)
            && (forall l :: l in s.libs ==>
                  0 <= s.libs[l].usage == TotalSize(s.entries, s.contents, Members(s.entries, l)))
            && (forall c :: c in s.contents ==> StorageKey(s.contents[c].lib, c) in s.files)
            && (forall x :: x in s.entries && s.entries[x].content.Some? ==>
                  var c := s.entries[x].content.value;
                  c in s.contents && s.contents[c].lib == s.entries[x].lib)
  {
    EmptyIsValid(cfg);
    var s := Run(Empty, cfg, cs);
    forall x | x in s.entries
      ensures ParentOk(s.entries, x) && Shallow(s.entries, x)
      ensures forall k: nat :: k > 0 ==> Up(s.entries, Some(x), k) != Some(x)
    {
      forall k: nat | k > 0 ensures Up(s.entries, Some(x), k) != Some(x) { Acyclic(s.entries, x, k); }
    }
  }

  // ---- quotas -------------------------------------------------------------------------------------

  /**
   The policy table permits the library this usage: a station's library has the station bytes of its department, any
   other the department bytes, and a department without a policy row the defaults.
   */
  ghost predicate Permits(s: Store, cfg: Settings, lib: nat, usage: int)
    requires lib in s.libs
  {
    var row := s.libs[lib];
    && (row.dept in s.policies && row.station.Some? ==> usage <= s.policies[row.dept].stationBytes)
    && (row.dept in s.policies && row.station.None? ==> usage <= s.policies[row.dept].departmentBytes)
    && (row.dept !in s.policies && row.station.Some? ==> usage <= cfg.defaultStationBytes)
    && (row.dept !in s.policies && row.station.None? ==> usage <= cfg.defaultDepartmentBytes)
  }

  lemma QuotaIsPermitted(s: Store, cfg: Settings, lib: nat, usage: int)
    requires lib in s.libs
    ensures usage <= Quota(s, cfg, lib) <==> Permits(s, cfg, lib, usage)
  {
  }

  /** Usage may fall; it may rise only to a value that the policy in force permits. */
  ghost predicate WithinPolicyOrLower(s: Store, s': Store, cfg: Settings, lib: nat)
    requires lib in s.libs
  {
    lib in s'.libs && (s'.libs[lib].usage <= s.libs[lib].usage || Permits(s, cfg, lib, s'.libs[lib].usage))
  }

  lemma UploadUsage(
      s: Store, cfg: Settings, lib: nat, id: nat, content: nat, name: string, parent: Option<nat>, size: nat,
      sha: string, now: int, l: nat)
    requires l in s.libs
    ensures WithinPolicyOrLower(s, Settle(s, Upload(s, cfg, lib, id, content, name, parent, size, sha, now)), cfg, l)
  {
  }

  lemma ReplaceUsage(s: Store, cfg: Settings, lib: nat, id: nat, content: nat, size: nat, sha: string, now: int, l: nat)
    requires l in s.libs
    ensures WithinPolicyOrLower(s, Settle(s, Replace(s, cfg, lib, id, content, size, sha, now)), cfg, l)
  {
  }

  lemma PlacementUsage(s: Store, cfg: Settings, c: Command, l: nat)
    requires ReferencesOk(s) && l in s.libs && (c.CreateFolderCmd? || c.EditCmd?)
    ensures l in Step(s, cfg, c).libs && Step(s, cfg, c).libs[l].usage == s.libs[l].usage
  {
  }

  lemma DeleteUsageFalls(s: Store, lib: nat, id: nat, l: nat)
    requires l in s.libs
    ensures l in Settle(s, Delete(s, lib, id)).libs && Settle(s, Delete(s, lib, id)).libs[l].usage <= s.libs[l].usage
  {
  }

  lemma OtherUsage(s: Store, cfg: Settings, c: Command, l: nat)
    requires ReferencesOk(s) && l in s.libs && (c.RenameCmd? || !IsTreeCommand(c))
    ensures l in Step(s, cfg, c).libs && Step(s, cfg, c).libs[l].usage == s.libs[l].usage
  {
  }

  /** Libraries stay, and only an upload or replacement that fits the quota raises a library's usage. */
  lemma StepUsage(s: Store, cfg: Settings, c: Command, lib: nat)
    requires ReferencesOk(s) && lib in s.libs
    ensures WithinPolicyOrLower(s, Step(s, cfg, c), cfg, lib)
  {
    match c
    case UploadCmd(l, id, content, name, parent, size, sha, now) =>
      UploadUsage(s, cfg, l, id, content, name, parent, size, sha, now, lib);
    case ReplaceCmd(l, id, content, size, sha, now) =>
      ReplaceUsage(s, cfg, l, id, content, size, sha, now, lib);
    case DeleteCmd(l, id) => DeleteUsageFalls(s, l, id, lib);
    case CreateFolderCmd(_, _, _, _) => PlacementUsage(s, cfg, c, lib);
    case EditCmd(_, _, _, _, _) => PlacementUsage(s, cfg, c, lib);
    case _ => OtherUsage(s, cfg, c, lib);
  }

  /** At no moment of the run does the policy table permit the library more than `top`. */
  ghost predicate NeverPermitsMore(s: Store, cfg: Settings, cs: seq<Command>, lib: nat, top: int)
    requires Valid(s, cfg)
    decreases |cs|
  {
    && (lib in s.libs ==> forall usage {:trigger Permits(s, cfg, lib, usage)} ::
          Permits(s, cfg, lib, usage) ==> usage <= top)
    && if cs == [] then true
       else
         StepKeepsValid(s, cfg, cs[0]);
         NeverPermitsMore(Step(s, cfg, cs[0]), cfg, cs[1..], lib, top)
  }

  lemma {:induction false} UsageBounded(s: Store, cfg: Settings, cs: seq<Command>, lib: nat, top: int)
    requires Valid(s, cfg) && (lib in s.libs ==> s.libs[lib].usage <= top) && lib in Run(s, cfg, cs).libs
    requires 0 <= top && NeverPermitsMore(s, cfg, cs, lib, top)
    ensures Run(s, cfg, cs).libs[lib].usage <= top
    decreases |cs|
  {
    if cs != [] {
      StepKeepsValid(s, cfg, cs[0]);
      if lib in s.libs { StepUsage(s, cfg, cs[0], lib); } else { NewLibraryIsEmpty(s, cfg, cs[0], lib); }
      UsageBounded(Step(s, cfg, cs[0]), cfg, cs[1..], lib, top);
    }
  }

  lemma NewLibraryIsEmpty(s: Store, cfg: Settings, c: Command, lib: nat)
    requires ReferencesOk(s) && StorageOk(s) && lib !in s.libs
    ensures lib in Step(s, cfg, c).libs ==> Step(s, cfg, c).libs[lib].usage == 0
  {
    if IsTreeCommand(c) { TreeCommandFrame(s, cfg, c); }
  }

  /** From the empty store, usage never exceeds the most that the policy table has ever permitted the library. */
  lemma UsageNeverAboveEveryQuota(cfg: Settings, cs: seq<Command>, lib: nat, top: nat)
    ensures Valid(Empty, cfg)
    ensures NeverPermitsMore(Empty, cfg, cs, lib, top) && lib in Run(Empty, cfg, cs).libs ==>
            Run(Empty, cfg, cs).libs[lib].usage <= top
  {
    EmptyIsValid(cfg);
    if NeverPermitsMore(Empty, cfg, cs, lib, top) && lib in Run(Empty, cfg, cs).libs {
      UsageBounded(Empty, cfg, cs, lib, top);
    }
  }

  /** While a library uses more than the policy permits, no command makes it larger. */
  lemma OverQuotaOnlyShrinks(s: Store, cfg: Settings, c: Command, lib: nat)
    requires ReferencesOk(s) && lib in s.libs && !Permits(s, cfg, lib, s.libs[lib].usage)
    ensures lib in Step(s, cfg, c).libs && Step(s, cfg, c).libs[lib].usage <= s.libs[lib].usage
  {
    StepUsage(s, cfg, c, lib);
  }

  // ---- frozen sources -----------------------------------------------------------------------------

  /** No command but its own release touches what a frozen publication reads. */
  ghost predicate ReadsAlike(s: Store, s': Store, pub: nat)
    requires pub in s.frozen
  {
    && pub in s'.frozen && s'.frozen[pub] == s.frozen[pub]
    && (forall x :: (pub, x) in s'.pins <==> (pub, x) in s.pins)
    && (forall x :: (pub, x) in s.pins ==>
          var k := s.pins[(pub, x)];
          s'.pins[(pub, x)] == k && (k in s.contents ==> k in s'.contents && s'.contents[k] == s.contents[k]))
  }

  lemma StepReadsAlike(s: Store, cfg: Settings, c: Command, pub: nat)
    requires ReferencesOk(s) && StorageOk(s) && pub in s.frozen && c != ReleaseCmd(pub)
    ensures ReadsAlike(s, Step(s, cfg, c), pub)
  {
    if IsTreeCommand(c) {
      TreeCommandFrame(s, cfg, c);
    } else if c.PinCmd? {
      PinReadsAlike(s, c.pub, c.lib, pub);
    } else {
      MaintenanceReadsAlike(s, cfg, c, pub);
    }
  }

  lemma PinReadsAlike(s: Store, other: nat, lib: nat, pub: nat)
    requires ReferencesOk(s) && pub in s.frozen
    ensures ReadsAlike(s, Pin(s, other, lib), pub)
  {
    if lib in s.libs && other !in s.frozen {
      SnapshotFacts(s, lib);
      PinsOfContents(other, SnapshotOf(s, lib).documents);
    }
  }

  /** Collection spares pinned rows; unlinking, reconciliation and quota changes keep all rows. */
  lemma CollectReadsAlike(s: Store, cfg: Settings, c: Command, pub: nat)
    requires ReferencesOk(s) && StorageOk(s) && pub in s.frozen && c.CollectCmd?
    ensures ReadsAlike(s, Step(s, cfg, c), pub)
  {
    forall x: nat | (pub, x) in s.pins && s.pins[(pub, x)] == c.content ensures Referenced(s, c.content) {}
  }

  lemma MaintenanceReadsAlike(s: Store, cfg: Settings, c: Command, pub: nat)
    requires ReferencesOk(s) && StorageOk(s) && pub in s.frozen && c != ReleaseCmd(pub) && !IsTreeCommand(c)
    requires !c.PinCmd?
    ensures ReadsAlike(s, Step(s, cfg, c), pub)
  {
    if c.CollectCmd? { CollectReadsAlike(s, cfg, c, pub); }
  }

  lemma StepKeepsHeld(s: Store, cfg: Settings, c: Command, pub: nat, snap: Snapshot)
    requires Valid(s, cfg) && Held(s, pub, snap) && c != ReleaseCmd(pub)
    ensures Held(Step(s, cfg, c), pub, snap)
  {
    StepReadsAlike(s, cfg, c, pub);
    HeldFrame(s, Step(s, cfg, c), pub, snap);
  }

  lemma {:induction false} RunKeepsHeld(s: Store, cfg: Settings, cs: seq<Command>, pub: nat, snap: Snapshot)
    requires Valid(s, cfg) && Held(s, pub, snap) && ReleaseCmd(pub) !in cs
    ensures Held(Run(s, cfg, cs), pub, snap)
    decreases |cs|
  {
    if cs != [] {
      assert cs[0] in cs;
      StepKeepsValid(s, cfg, cs[0]);
      StepKeepsHeld(s, cfg, cs[0], pub, snap);
      RunKeepsHeld(Step(s, cfg, cs[0]), cfg, cs[1..], pub, snap);
    }
  }

  lemma HeldSourceSurvives(s: Store, cfg: Settings, cs: seq<Command>, pub: nat, snap: Snapshot)
    requires Valid(s, cfg) && Held(s, pub, snap) && ReleaseCmd(pub) !in cs
    ensures var s' := Run(s, cfg, cs);
            FrozenDocuments(s', pub) == Ok(Expected(snap)) && forall d :: d in Expected(snap) ==> d.key in s'.files
  {
    RunKeepsHeld(s, cfg, cs, pub, snap);
    HeldReads(Run(s, cfg, cs), pub, snap);
  }

  /**
   Once a publication has pinned the current snapshot of a library, any later run without its own release reads back
   exactly the documents of that snapshot, and their stored files are present.
   */
  lemma PinnedSourceSurvives(s: Store, cfg: Settings, pub: nat, lib: nat, cs: seq<Command>)
    requires Valid(s, cfg) && lib in s.libs && pub !in s.frozen && ReleaseCmd(pub) !in cs
    ensures Valid(Pin(s, pub, lib), cfg)
    ensures var s' := Run(Pin(s, pub, lib), cfg, cs);
            FrozenDocuments(s', pub) == Ok(Expected(SnapshotOf(s, lib)))
            && forall d :: d in Expected(SnapshotOf(s, lib)) ==> d.key in s'.files
  {
    PinKeepsValid(s, cfg, pub, lib);
    PinHolds(s, pub, lib);
    HeldSourceSurvives(Pin(s, pub, lib), cfg, cs, pub, SnapshotOf(s, lib));
  }

  lemma PinKeepsValid(s: Store, cfg: Settings, pub: nat, lib: nat)
    requires Valid(s, cfg)
    ensures Valid(Pin(s, pub, lib), cfg)
  {
    PinKeepsReferences(s, pub, lib);
  }
}
